/**
 * The timer-job reconciler: a job descriptor whose Name and Title are
 * normalised around its target Url, and the web application's job list it
 * registers into.
 */
module TimerJobs {

  /** An SPSchedule, opaque to the reconciler. */
  datatype Schedule = Schedule(recurrence: string)

  /** The executing method as the job record keeps it: its declaring type and its name. */
  datatype MethodRef = MethodRef(declaringType: string, methodName: string)

  /** A job definition registered in the web application (a TimerJobCreator once persisted). */
  datatype JobDefinition = JobDefinition(
    name: string,
    title: string,
    description: string,
    schedule: Schedule,
    url: string,
    methodName: string,
    methodType: string)

  /** SiteNotFound: the NullReferenceException thrown with the Url and the web application's name. */
  datatype Outcome = Done | SiteNotFound(url: string, webApp: string)

  /** String.Contains with ordinal comparison; every string contains the empty one. */
  predicate Contains(s: string, sub: string) {
    exists i | 0 <= i <= |s| - |sub| :: OccursAt(s, sub, i)
  }

  predicate OccursAt(s: string, sub: string, i: int) {
    0 <= i <= |s| - |sub| && s[i..i + |sub|] == sub
  }

  /** The Name setter's rewrite: every space becomes an underscore. */
  function SpacesToUnderscores(s: string): (r: string)
    ensures |r| == |s|
    ensures forall i :: 0 <= i < |s| ==> r[i] == if s[i] == ' ' then '_' else s[i]
    ensures ' ' !in r
  {
    if s == [] then [] else [if s[0] == ' ' then '_' else s[0]] + SpacesToUnderscores(s[1..])
  }

  /** The Title getter: the stored title unless it is empty (or null), otherwise the name. */
  function EffectiveTitle(title: string, name: string): (r: string)
    ensures title != "" ==> r == title
    ensures title == "" ==> r == name
  {
    if title == "" then name else title
  }

  /** The stored title after ValidateTitleAndName: the effective title suffixed with " - " and the Url, unless it contains the Url. */
  function NormalizedTitle(title: string, name: string, url: string): (r: string)
    ensures Contains(EffectiveTitle(title, name), url) ==> r == title
    ensures !Contains(EffectiveTitle(title, name), url) ==>
              r == EffectiveTitle(title, name) + " - " + url && Contains(r, url)
  {
    var t := EffectiveTitle(title, name);
    if Contains(t, url) then title
    else
      ContainsSuffix(t + " - ", url);
      assert t + " - " + url == (t + " - ") + url;
      t + " - " + url
  }

  /** The name after ValidateTitleAndName: suffixed with "_" and the Url through the setter, unless it contains the Url. */
  function NormalizedName(name: string, url: string): (r: string)
    ensures Contains(name, url) ==> r == name
    ensures !Contains(name, url) ==> r == SpacesToUnderscores(name) + "_" + SpacesToUnderscores(url)
    ensures !Contains(name, url) ==> |r| == |name| + 1 + |url| && r[..|name|] == SpacesToUnderscores(name)
    ensures ' ' !in name ==> ' ' !in r
  {
    if Contains(name, url) then name
    else
      SpacesToUnderscoresConcat(name + "_", url);
      SpacesToUnderscoresConcat(name, "_");
      assert SpacesToUnderscores("_") == "_";
      assert name + "_" + url == (name + "_") + url;
      SpacesToUnderscores(name + "_" + url)
  }

  /** The jobs RemoveExistingJobs leaves: every job not named name, in order. */
  function WithoutJobsNamed(jobs: seq<JobDefinition>, name: string): (r: seq<JobDefinition>)
    ensures |r| <= |jobs|
  {
    if jobs == [] then []
    else
      var rest := WithoutJobsNamed(jobs[..|jobs| - 1], name);
      if jobs[|jobs| - 1].name == name then rest else rest + [jobs[|jobs| - 1]]
  }

  function CountNamed(jobs: seq<JobDefinition>, name: string): nat {
    if jobs == [] then 0
    else CountNamed(jobs[..|jobs| - 1], name) + (if jobs[|jobs| - 1].name == name then 1 else 0)
  }

  // ---- String lemmas ----

  lemma ContainsSuffix(s: string, t: string)
    ensures Contains(s + t, t)
  {
    assert (s + t)[|s|..|s| + |t|] == t;
    assert OccursAt(s + t, t, |s|);
  }

  lemma MissingCharNotContained(s: string, sub: string, ch: char)
    requires ch in sub && ch !in s
    ensures !Contains(s, sub)
  {
    var j :| 0 <= j < |sub| && sub[j] == ch;
    forall i | 0 <= i <= |s| - |sub| ensures !OccursAt(s, sub, i) {
      assert s[i..i + |sub|][j] == s[i + j] != ch;
    }
  }

  lemma SpacesToUnderscoresFixed(s: string)
    requires ' ' !in s
    ensures SpacesToUnderscores(s) == s
  {
  }

  lemma SpacesToUnderscoresConcat(a: string, b: string)
    ensures SpacesToUnderscores(a + b) == SpacesToUnderscores(a) + SpacesToUnderscores(b)
  {
    var l, r := SpacesToUnderscores(a + b), SpacesToUnderscores(a) + SpacesToUnderscores(b);
    assert |l| == |r|;
    forall i | 0 <= i < |l| ensures l[i] == r[i] {
      if i < |a| {
        assert (a + b)[i] == a[i];
      } else {
        assert (a + b)[i] == b[i - |a|];
      }
    }
  }

  // ---- ValidateTitleAndName ----

  /**
   * After ValidateTitleAndName the Title (as the getter reads it) contains the
   * Url, and so does the Name when neither the Url nor the old name has a space.
   */
  lemma ValidatedTitleAndNameContainUrl(title: string, name: string, url: string)
    ensures Contains(EffectiveTitle(NormalizedTitle(title, name, url), NormalizedName(name, url)), url)
    ensures ' ' !in url && ' ' !in name ==> Contains(NormalizedName(name, url), url)
  {
    var t := EffectiveTitle(title, name);
    if !Contains(t, url) {
      ContainsSuffix(t + " - ", url);
      assert t + " - " + url == (t + " - ") + url;
    }
    if ' ' !in url && ' ' !in name && !Contains(name, url) {
      assert ' ' !in name + "_" + url;
      SpacesToUnderscoresFixed(name + "_" + url);
      ContainsSuffix(name + "_", url);
      assert name + "_" + url == (name + "_") + url;
    }
  }

  /** When neither the Url nor the name has a space, a second ValidateTitleAndName changes nothing. */
  lemma ValidateTwiceIsValidateOnce(title: string, name: string, url: string)
    requires ' ' !in url && ' ' !in name
    ensures var t1, n1 := NormalizedTitle(title, name, url), NormalizedName(name, url);
      NormalizedTitle(t1, n1, url) == t1 && NormalizedName(n1, url) == n1
  {
    ValidatedTitleAndNameContainUrl(title, name, url);
  }

  /**
   * With a space in the Url the stored name never contains it (the setter
   * turned that space into an underscore), so every ValidateTitleAndName
   * appends the rewritten Url once more.
   */
  lemma SpacedUrlAppendsAgain(name: string, url: string)
    requires ' ' in url && ' ' !in name
    ensures NormalizedName(name, url) == name + "_" + SpacesToUnderscores(url)
    ensures ' ' !in NormalizedName(name, url)
    ensures |NormalizedName(name, url)| > |name|
  {
    MissingCharNotContained(name, url, ' ');
    SpacesToUnderscoresConcat(name + "_", url);
    SpacesToUnderscoresFixed(name + "_");
    assert name + "_" + url == (name + "_") + url;
  }

  /**
   * The setter's example: "Nightly Cleanup" is stored as "Nightly_Cleanup".
   * The string is a parameter fixed by the precondition rather than a literal
   * in the body, so that the solver does not unfold the recursive rewrite on it
   * eagerly; the same holds for the lemma below.
   */
  lemma NightlyCleanupName(raw: string)
    requires raw == "Nightly Cleanup"
    ensures SpacesToUnderscores(raw) == "Nightly_Cleanup"
  {
    var name := SpacesToUnderscores(raw);
    forall i | 0 <= i < |name| ensures name[i] == "Nightly_Cleanup"[i] {
    }
  }

  /**
   * Validating "Nightly_Cleanup" against "https://site/a" with no title gives
   * the name "Nightly_Cleanup_https://site/a" and the title
   * "Nightly_Cleanup - https://site/a".
   */
  lemma NightlyCleanupValidated(name: string, url: string)
    requires name == "Nightly_Cleanup" && url == "https://site/a"
    ensures NormalizedName(name, url) == name + "_" + url
    ensures NormalizedTitle("", name, url) == name + " - " + url
  {
    assert url[5] == ':';
    assert ':' !in name;
    MissingCharNotContained(name, url, ':');
    assert ' ' !in url;
    assert ' ' !in name + "_" + url;
    SpacesToUnderscoresFixed(name + "_" + url);
  }

  // ---- RemoveExistingJobs and Create ----

  /** One step of the deleting walk: the next job is dropped exactly when it has the name. */
  lemma WithoutJobsNamedStep(jobs: seq<JobDefinition>, i: nat, name: string)
    requires i < |jobs|
    ensures WithoutJobsNamed(jobs[..i + 1], name)
            == WithoutJobsNamed(jobs[..i], name) + (if jobs[i].name == name then [] else [jobs[i]])
  {
    assert jobs[..i + 1][..i] == jobs[..i];
  }

  /** RemoveExistingJobs leaves no job of that name, and exactly the other jobs. */
  lemma {:induction false} WithoutJobsNamedMembership(jobs: seq<JobDefinition>, name: string)
    ensures forall j :: j in WithoutJobsNamed(jobs, name) <==> j in jobs && j.name != name
    ensures CountNamed(WithoutJobsNamed(jobs, name), name) == 0
    decreases |jobs|
  {
    if jobs != [] {
      var init := jobs[..|jobs| - 1];
      WithoutJobsNamedMembership(init, name);
      assert jobs == init + [jobs[|jobs| - 1]];
      var rest := WithoutJobsNamed(init, name);
      if jobs[|jobs| - 1].name != name {
        assert (rest + [jobs[|jobs| - 1]])[..|rest|] == rest;
      }
    }
  }

  /** RemoveExistingJobs keeps the other jobs in their order: it distributes over concatenation. */
  lemma {:induction false} WithoutJobsNamedAppend(a: seq<JobDefinition>, b: seq<JobDefinition>, name: string)
    ensures WithoutJobsNamed(a + b, name) == WithoutJobsNamed(a, name) + WithoutJobsNamed(b, name)
    decreases |b|
  {
    if b != [] {
      var init := b[..|b| - 1];
      assert (a + b)[..|a + b| - 1] == a + init;
      assert (a + b)[|a + b| - 1] == b[|b| - 1];
      WithoutJobsNamedAppend(a, init, name);
    } else {
      assert a + b == a;
    }
  }

  lemma {:induction false} CountNamedAppendOne(jobs: seq<JobDefinition>, d: JobDefinition, name: string)
    ensures CountNamed(jobs + [d], name) == CountNamed(jobs, name) + (if d.name == name then 1 else 0)
  {
    assert (jobs + [d])[..|jobs|] == jobs;
  }

  /** After Create exactly one job carries the normalised name: the one just registered. */
  lemma CreateLeavesOneJobNamed(jobs: seq<JobDefinition>, d: JobDefinition)
    ensures CountNamed(WithoutJobsNamed(jobs, d.name) + [d], d.name) == 1
    ensures forall j :: j in WithoutJobsNamed(jobs, d.name) + [d] && j.name == d.name ==> j == d
  {
    WithoutJobsNamedMembership(jobs, d.name);
    CountNamedAppendOne(WithoutJobsNamed(jobs, d.name), d, d.name);
  }

  // ---- The mutable objects ----

  /** An SPWebApplication: the URLs of its sites and its job definitions. */
  class WebApplication {
    const name: string
    const sites: set<string>
    var jobs: seq<JobDefinition>

    constructor (name: string, sites: set<string>, jobs: seq<JobDefinition>)
      ensures this.name == name && this.sites == sites && this.jobs == jobs
    {
      this.name := name;
      this.sites := sites;
      this.jobs := jobs;
    }
  }

  /** A declared timer job, with the backing fields _title and _name ("" stands for null). */
  class TimerJob {
    var title: string
    var name: string
    const description: string
    const url: string
    const schedule: Schedule
    const executingMethod: MethodRef

    /** Every name goes through the setter, so the stored name has no space. */
    ghost predicate Valid()
      reads this
    {
      ' ' !in name
    }

    /** What a concrete job's constructor sets, the name through its setter. */
    constructor (name: string, title: string, description: string, url: string,
                 schedule: Schedule, executingMethod: MethodRef)
      ensures Valid()
      ensures this.name == SpacesToUnderscores(name) && this.title == title
      ensures this.description == description && this.url == url
      ensures this.schedule == schedule && this.executingMethod == executingMethod
    {
      this.name := SpacesToUnderscores(name);
      this.title := title;
      this.description := description;
      this.url := url;
      this.schedule := schedule;
      this.executingMethod := executingMethod;
    }

    /** The Title getter. */
    function Title(): (r: string)
      reads this
      ensures title != "" ==> r == title
      ensures title == "" ==> r == name
    {
      EffectiveTitle(title, name)
    }

    /** The Name setter. */
    method SetName(value: string)
      modifies this`name
      ensures Valid() && name == SpacesToUnderscores(value)
    {
      name := SpacesToUnderscores(value);
    }

    /** The Title setter. */
    method SetTitle(value: string)
      modifies this`title
      ensures title == value
    {
      title := value;
    }

    /** The record Create registers: the normalised fields and the executing method's type and name. */
    function Descriptor(): (r: JobDefinition)
      reads this
      ensures r.name == name && r.title == Title() && r.description == description
      ensures r.schedule == schedule && r.url == url
      ensures r.methodName == executingMethod.methodName && r.methodType == executingMethod.declaringType
    {
      JobDefinition(name, Title(), description, schedule, url, executingMethod.methodName, executingMethod.declaringType)
    }

    /** ValidateTitleAndName: the title first, then the name. */
    method ValidateTitleAndName()
      requires Valid()
      modifies this`title, this`name
      ensures Valid()
      ensures title == NormalizedTitle(old(title), old(name), url)
      ensures name == NormalizedName(old(name), url)
    {
      if !Contains(Title(), url) {
        SetTitle(Title() + " - " + url);
      }
      if !Contains(name, url) {
        SetName(name + "_" + url);
      }
    }

    /** RemoveExistingJobs: walks the job list and deletes every job named Name. */
    method RemoveExistingJobs(app: WebApplication)
      modifies app`jobs
      ensures app.jobs == WithoutJobsNamed(old(app.jobs), name)
    {
      var snapshot := app.jobs;
      var kept := 0;
      var i := 0;
      while i < |snapshot|
        invariant 0 <= kept <= i <= |snapshot| && |app.jobs| == kept + (|snapshot| - i)
        invariant app.jobs[..kept] == WithoutJobsNamed(snapshot[..i], name)
        invariant app.jobs[kept..] == snapshot[i..]
      {
        WithoutJobsNamedStep(snapshot, i, name);
        assert app.jobs[kept] == snapshot[i];
        if snapshot[i].name == name {
          // job.Delete()
          ghost var prev := app.jobs;
          app.jobs := app.jobs[..kept] + app.jobs[kept + 1..];
          assert app.jobs[..kept] == prev[..kept];
          assert app.jobs[kept..] == prev[kept + 1..];
        } else {
          ghost var prev := app.jobs;
          kept := kept + 1;
          assert app.jobs[..kept] == prev[..kept - 1] + [snapshot[i]];
        }
        i := i + 1;
      }
      assert snapshot[..i] == snapshot;
      assert app.jobs == app.jobs[..kept] + app.jobs[kept..];
      assert snapshot[..|snapshot|] == snapshot;
    }

    /**
     * Create: on a site of the web application, normalise, delete the jobs of
     * that name and register the descriptor; otherwise throw, changing nothing.
     */
    method Create(app: WebApplication) returns (r: Outcome)
      requires Valid()
      modifies this`title, this`name, app`jobs
      ensures Valid()
      ensures url !in app.sites ==>
                r == SiteNotFound(url, app.name)
                && title == old(title) && name == old(name) && app.jobs == old(app.jobs)
      ensures url in app.sites ==>
                r == Done
                && title == NormalizedTitle(old(title), old(name), url)
                && name == NormalizedName(old(name), url)
                && app.jobs == WithoutJobsNamed(old(app.jobs), name) + [Descriptor()]
    {
      if url in app.sites {
        ValidateTitleAndName();
        RemoveExistingJobs(app);
        app.jobs := app.jobs + [Descriptor()];  // job.Update()
        r := Done;
      } else {
        r := SiteNotFound(url, app.name);
      }
    }

    /** Remove: the same steps without the registration; on a foreign site a silent no-op. */
    method Remove(app: WebApplication)
      requires Valid()
      modifies this`title, this`name, app`jobs
      ensures Valid()
      ensures url !in app.sites ==> title == old(title) && name == old(name) && app.jobs == old(app.jobs)
      ensures url in app.sites ==>
                title == NormalizedTitle(old(title), old(name), url)
                && name == NormalizedName(old(name), url)
                && app.jobs == WithoutJobsNamed(old(app.jobs), name)
    {
      if url in app.sites {
        ValidateTitleAndName();
        RemoveExistingJobs(app);
      }
    }
  }
}
