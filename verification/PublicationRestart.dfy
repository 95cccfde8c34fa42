/** Publication over crashes: a rerun makes exactly the writes that were still
    missing, a finished release is written to no more, nothing published is
    overwritten, and `latest` moves last. */
module PublicationRestart {
  import opened Wrappers
  import opened Strings
  import opened Publication

  // ---------------------------------------------------------------------
  // Restarting
  // ---------------------------------------------------------------------

  lemma FirstOff(w: Write, rest: seq<Write>, k: nat)
    requires 0 < k <= |rest| + 1
    ensures ([w] + rest)[..k] == [w] + rest[..k - 1] && ([w] + rest)[..k][1..] == rest[..k - 1]
    ensures ([w] + rest)[k..] == rest[k - 1..]
  {
  }

  lemma {:induction false} ResumeFrom(b: Bundle, packages: seq<Package>, r: Registry, k: nat)
    requires DistinctNames(packages) && forall p :: p in packages ==> StartsWith(p.integrity, SHA512)
    requires k <= |PlanPackages(b, packages, r).writes|
    ensures var plan := PlanPackages(b, packages, r);
      PlanPackages(b, packages, ApplyAll(b, r, plan.writes[..k])) == Plan(plan.writes[k..], plan.error)
  {
    var plan := PlanPackages(b, packages, r);
    if k == 0 {
      assert plan.writes[..0] == [] && plan.writes[0..] == plan.writes;
    } else if packages == [] {
      assert plan.writes[..1][1..] == [] && plan.writes[1..] == [];
    } else {
      var step := PackageWrite(b, r, packages[0]).value;
      WrittenIsSettled(b, r, packages[0]);
      if step.None? {
        ResumeFrom(b, packages[1..], r, k);
        RestLeavesSettled(b, packages, r, k);
      } else {
        var next := Apply(b, r, step.value);
        var rest := PlanPackages(b, packages[1..], next);
        ResumeFrom(b, packages[1..], next, k - 1);
        RestLeavesSettled(b, packages, next, k - 1);
        FirstOff(step.value, rest.writes, k);
        SettledSkipped(b, packages, ApplyAll(b, next, rest.writes[..k - 1]));
      }
    }
  }

  lemma SettledSkipped(b: Bundle, packages: seq<Package>, r: Registry)
    requires packages != [] && Settled(b, r, packages[0])
    ensures PlanPackages(b, packages, r) == PlanPackages(b, packages[1..], r)
  {
  }

  /** After a run stopped anywhere, a rerun plans exactly the writes that the
      first run did not get to, and ends the same way. */
  lemma Resume(b: Bundle, r: Registry, k: nat)
    requires ValidBundle(b) && k <= |PlanOf(b, r).writes|
    ensures PlanOf(b, After(b, r, k)) == Plan(PlanOf(b, r).writes[k..], PlanOf(b, r).error)
  {
    ResumeFrom(b, b.packages, r, k);
  }

  /** The registry after runs that stop after the given numbers of writes. */
  ghost function AfterRuns(b: Bundle, r: Registry, steps: seq<nat>): Registry
    decreases |steps|
  {
    if steps == [] then r else AfterRuns(b, After(b, r, steps[0]), steps[1..])
  }

  ghost function Sum(steps: seq<nat>): nat {
    if steps == [] then 0 else steps[0] + Sum(steps[1..])
  }

  lemma {:induction false} ApplyInTwo(b: Bundle, r: Registry, first: seq<Write>, second: seq<Write>)
    ensures ApplyAll(b, r, first + second) == ApplyAll(b, ApplyAll(b, r, first), second)
    decreases |first|
  {
    if first == [] {
      assert first + second == second;
    } else {
      assert (first + second)[1..] == first[1..] + second;
      ApplyInTwo(b, Apply(b, r, first[0]), first[1..], second);
    }
  }

  function Least(m: nat, n: nat): nat {
    if m <= n then m else n
  }

  lemma AfterIsApplied(b: Bundle, r: Registry, k: nat)
    ensures var writes := PlanOf(b, r).writes; After(b, r, k) == ApplyAll(b, r, writes[..Least(k, |writes|)])
  {
    var writes := PlanOf(b, r).writes;
    assert writes[..|writes|] == writes;
  }

  lemma {:induction false} TwoRuns(b: Bundle, r: Registry, m: nat, n: nat)
    requires ValidBundle(b)
    ensures After(b, After(b, r, m), n) == After(b, r, m + n)
  {
    var writes := PlanOf(b, r).writes;
    var cut := Least(m, |writes|);
    AfterIsApplied(b, r, m);
    AfterIsApplied(b, r, cut);
    Resume(b, r, cut);
    var left := writes[cut..];
    var more := Least(n, |left|);
    AfterIsApplied(b, After(b, r, m), n);
    ApplyInTwo(b, r, writes[..cut], left[..more]);
    assert writes[..cut] + left[..more] == writes[..cut + more];
    AfterIsApplied(b, r, m + n);
    assert cut + more == Least(m + n, |writes|);
  }

  /** However often the process is stopped and rerun, the registry stands where
      one run making as many writes would have left it. */
  lemma {:induction false} CrashesDoNotMatter(b: Bundle, r: Registry, steps: seq<nat>)
    requires ValidBundle(b)
    ensures AfterRuns(b, r, steps) == After(b, r, Sum(steps))
    decreases |steps|
  {
    if steps == [] {
      assert PlanOf(b, r).writes[..0] == [];
    } else {
      CrashesDoNotMatter(b, After(b, r, steps[0]), steps[1..]);
      TwoRuns(b, r, steps[0], Sum(steps[1..]));
    }
  }

  /** A released bundle is a fixed point, and only a released one is. */
  lemma NothingPlannedIffReleased(b: Bundle, r: Registry)
    requires ValidBundle(b)
    ensures PlanOf(b, r) == Plan([], None) <==> Released(b, r)
  {
    if Released(b, r) {
      NothingToDo(b, b.packages, r);
    }
    if PlanOf(b, r) == Plan([], None) {
      CompletedIsReleased(b, r);
    }
  }

  lemma {:induction false} NothingToDo(b: Bundle, packages: seq<Package>, r: Registry)
    requires Tagged(b, r, RELEASE_ENTRY_PACKAGE, LATEST_DIST_TAG)
    requires forall p :: p in packages ==> Settled(b, r, p)
    ensures PlanPackages(b, packages, r) == Plan([], None)
  {
    if packages != [] {
      assert Settled(b, r, packages[0]);
      NothingToDo(b, packages[1..], r);
    }
  }

  // ---------------------------------------------------------------------
  // When publication succeeds, and what it never does
  // ---------------------------------------------------------------------

  /** Whatever is already published under the bundle's version is the bundle's
      own, and the entry package is or will be there to be tagged. */
  ghost predicate Publishable(b: Bundle, packages: seq<Package>, r: Registry) {
    && (forall p :: p in packages && IsPublished(b, r, p.name) ==> r.published[(p.name, b.version)] == p.integrity)
    && (Tagged(b, r, RELEASE_ENTRY_PACKAGE, LATEST_DIST_TAG) || IsPublished(b, r, RELEASE_ENTRY_PACKAGE)
        || exists p :: p in packages && p.name == RELEASE_ENTRY_PACKAGE)
  }

  lemma {:induction false} SucceedsIffPublishable(b: Bundle, packages: seq<Package>, r: Registry)
    requires DistinctNames(packages) && forall p :: p in packages ==> StartsWith(p.integrity, SHA512)
    ensures PlanPackages(b, packages, r).error.None? <==> Publishable(b, packages, r)
  {
    if packages != [] {
      var p, rest := packages[0], packages[1..];
      assert packages == [p] + rest;
      match PackageWrite(b, r, p)
      case Failure(_) => assert p in packages;
      case Success(None) =>
        SucceedsIffPublishable(b, rest, r);
      case Success(Some(w)) =>
        SucceedsIffPublishable(b, rest, Apply(b, r, w));
        WriteKeepsPublishable(b, packages, r, w);
    }
  }

  lemma WriteKeepsPublishable(b: Bundle, packages: seq<Package>, r: Registry, w: Write)
    requires DistinctNames(packages) && packages != []
    requires PackageWrite(b, r, packages[0]) == Success(Some(w))
    ensures Publishable(b, packages[1..], Apply(b, r, w)) <==> Publishable(b, packages, r)
  {
    var p, rest, r' := packages[0], packages[1..], Apply(b, r, w);
    assert packages == [p] + rest;
    forall q | q in rest
      ensures IsPublished(b, r', q.name) <==> IsPublished(b, r, q.name)
      ensures IsPublished(b, r, q.name) ==> r'.published[(q.name, b.version)] == r.published[(q.name, b.version)]
    {
      var i :| 0 <= i < |rest| && rest[i] == q;
      assert packages[0].name != packages[i + 1].name;
    }
    if p.name == RELEASE_ENTRY_PACKAGE {
      assert p in packages && IsPublished(b, r', RELEASE_ENTRY_PACKAGE);
    }
  }

  /** A run succeeds exactly on a registry without a conflicting publication. */
  lemma PublishSucceedsIff(b: Bundle, r: Registry)
    requires ValidBundle(b)
    ensures PlanOf(b, r).error.None? <==> Publishable(b, b.packages, r)
  {
    SucceedsIffPublishable(b, b.packages, r);
  }

  /** What changes from one registry to another: versions only ever appear, and
      only under the bundle's version and tags. */
  ghost predicate Extends(b: Bundle, r: Registry, r': Registry) {
    && (forall key :: key in r.published ==> key in r'.published && r'.published[key] == r.published[key])
    && (forall key :: key in r'.published && key !in r.published ==> key.1 == b.version)
    && (forall key :: key in r.tags ==> key in r'.tags)
    && (forall key :: key in r'.tags && !(key in r.tags && r.tags[key] == r'.tags[key]) ==>
          r'.tags[key] == b.version && (key.1 == b.distTag || key == (RELEASE_ENTRY_PACKAGE, LATEST_DIST_TAG)))
  }

  lemma ExtendsTransitive(b: Bundle, r0: Registry, r1: Registry, r2: Registry)
    requires Extends(b, r0, r1) && Extends(b, r1, r2)
    ensures Extends(b, r0, r2)
  {
  }

  lemma WriteExtends(b: Bundle, r: Registry, p: Package)
    requires PackageWrite(b, r, p).Success? && PackageWrite(b, r, p).value.Some?
    ensures Extends(b, r, Apply(b, r, PackageWrite(b, r, p).value.value))
  {
  }

  lemma {:induction false} PlanExtends(b: Bundle, packages: seq<Package>, r: Registry, k: nat)
    requires k <= |PlanPackages(b, packages, r).writes|
    ensures Extends(b, r, ApplyAll(b, r, PlanPackages(b, packages, r).writes[..k]))
  {
    if k == 0 || packages == [] {
      LatestExtends(b, packages, r, k);
    } else {
      var step := PackageWrite(b, r, packages[0]).value;
      if step.None? {
        PlanExtends(b, packages[1..], r, k);
      } else {
        var next := Apply(b, r, step.value);
        var rest := PlanPackages(b, packages[1..], next).writes;
        PlanExtends(b, packages[1..], next, k - 1);
        FirstOff(step.value, rest, k);
        WriteExtends(b, r, packages[0]);
        ExtendsTransitive(b, r, next, ApplyAll(b, next, rest[..k - 1]));
      }
    }
  }

  lemma {:induction false} LatestExtends(b: Bundle, packages: seq<Package>, r: Registry, k: nat)
    requires k <= |PlanPackages(b, packages, r).writes| && (k == 0 || packages == [])
    ensures Extends(b, r, ApplyAll(b, r, PlanPackages(b, packages, r).writes[..k]))
  {
    var writes := PlanPackages(b, packages, r).writes;
    if k > 0 { assert writes[..k] == [AddTag(RELEASE_ENTRY_PACKAGE, LATEST_DIST_TAG)] && writes[..k][1..] == []; }
  }

  /** At every point of every run, no published integrity has changed. */
  lemma NeverOverwrites(b: Bundle, r: Registry, k: nat)
    ensures Extends(b, r, After(b, r, k))
  {
    var writes := PlanOf(b, r).writes;
    assert writes[..|writes|] == writes;
    PlanExtends(b, b.packages, r, if k <= |writes| then k else |writes|);
  }

  // ---------------------------------------------------------------------
  // `latest` moves last
  // ---------------------------------------------------------------------

  /** No package comes after the entry package. */
  ghost predicate NoneAfterEntry(packages: seq<Package>) {
    forall i :: 0 <= i < |packages| - 1 ==> packages[i].name != RELEASE_ENTRY_PACKAGE
  }

  lemma {:induction false} LatestAfterAll(b: Bundle, packages: seq<Package>, r: Registry, k: nat)
    requires DistinctNames(packages) && forall p :: p in packages ==> StartsWith(p.integrity, SHA512)
    requires b.distTag != LATEST_DIST_TAG || NoneAfterEntry(packages)
    requires !Tagged(b, r, RELEASE_ENTRY_PACKAGE, LATEST_DIST_TAG)
    requires k <= |PlanPackages(b, packages, r).writes|
    requires Tagged(b, ApplyAll(b, r, PlanPackages(b, packages, r).writes[..k]), RELEASE_ENTRY_PACKAGE, LATEST_DIST_TAG)
    ensures PlanPackages(b, packages, r).error.None? && k == |PlanPackages(b, packages, r).writes|
  {
    var writes := PlanPackages(b, packages, r).writes;
    assert writes[..0] == [];
    if packages != [] {
      var step := PackageWrite(b, r, packages[0]).value;
      if step.None? {
        LatestAfterAll(b, packages[1..], r, k);
      } else {
        var next := Apply(b, r, step.value);
        FirstOff(step.value, PlanPackages(b, packages[1..], next).writes, k);
        if Tagged(b, next, RELEASE_ENTRY_PACKAGE, LATEST_DIST_TAG) {
          assert packages[0].name == RELEASE_ENTRY_PACKAGE && packages[1..] == [];
        } else {
          LatestAfterAll(b, packages[1..], next, k - 1);
        }
      }
    }
  }

  /** When `latest` did not already point at the release, it does so at no point
      of any run before every package is published and tagged. */
  lemma LatestMovesLast(b: Bundle, r: Registry, k: nat)
    requires ValidBundle(b) && (b.distTag != LATEST_DIST_TAG || NoneAfterEntry(b.packages))
    requires !Tagged(b, r, RELEASE_ENTRY_PACKAGE, LATEST_DIST_TAG)
    requires Tagged(b, After(b, r, k), RELEASE_ENTRY_PACKAGE, LATEST_DIST_TAG)
    ensures Released(b, After(b, r, k))
  {
    var writes := PlanOf(b, r).writes;
    assert writes[..|writes|] == writes;
    LatestAfterAll(b, b.packages, r, if k <= |writes| then k else |writes|);
    CompletedIsReleased(b, r);
  }

  ghost predicate NonePublished(b: Bundle, r: Registry, packages: seq<Package>) {
    forall j :: 0 <= j < |packages| ==> !IsPublished(b, r, packages[j].name)
  }

  /** On a registry that has none of them, the packages are published in order. */
  lemma {:induction false} FreshPackages(b: Bundle, packages: seq<Package>, r: Registry, n: nat)
    requires DistinctNames(packages) && NonePublished(b, r, packages) && n <= |packages|
    ensures n <= |PlanPackages(b, packages, r).writes|
    ensures var now := ApplyAll(b, r, PlanPackages(b, packages, r).writes[..n]);
      && (n > 0 ==> Tagged(b, now, packages[n - 1].name, b.distTag))
      && NonePublished(b, now, packages[n..])
    decreases n
  {
    var writes := PlanPackages(b, packages, r).writes;
    if n == 0 {
      assert writes[..0] == [] && packages[0..] == packages;
    } else {
      var w := PublishTarball(packages[0].name, packages[0].integrity);
      var next := Apply(b, r, w);
      var rest := PlanPackages(b, packages[1..], next).writes;
      FreshPackages(b, packages[1..], next, n - 1);
      FirstOff(w, rest, n);
      assert packages[1..][n - 1..] == packages[n..];
      if n == 1 { assert rest[..0] == []; } else { assert packages[1..][n - 2] == packages[n - 1]; }
    }
  }

  /** A bundle whose own distribution tag is `latest` moves it with the entry
      package, before the packages after it. */
  lemma LatestMovesEarly(b: Bundle, i: nat)
    requires ValidBundle(b) && b.distTag == LATEST_DIST_TAG
    requires i < |b.packages| - 1 && b.packages[i].name == RELEASE_ENTRY_PACKAGE
    ensures var now := After(b, Registry(map[], map[]), i + 1);
      Tagged(b, now, RELEASE_ENTRY_PACKAGE, LATEST_DIST_TAG) && !IsPublished(b, now, b.packages[i + 1].name)
  {
    var r := Registry(map[], map[]);
    FreshPackages(b, b.packages, r, i + 1);
    var now := ApplyAll(b, r, PlanOf(b, r).writes[..i + 1]);
    assert b.packages[i + 1..][0] == b.packages[i + 1];
    assert NonePublished(b, now, b.packages[i + 1..]);
  }

  ghost predicate LatestIsLast(b: Bundle) {
    forall r: Registry, k: nat ::
      !Tagged(b, r, RELEASE_ENTRY_PACKAGE, LATEST_DIST_TAG)
      && Tagged(b, After(b, r, k), RELEASE_ENTRY_PACKAGE, LATEST_DIST_TAG) ==>
        Released(b, After(b, r, k))
  }

  /** `latest` moves last on every registry exactly when the bundle has another
      distribution tag, or nothing after the entry package. */
  lemma LatestIsLastIff(b: Bundle)
    requires ValidBundle(b)
    ensures LatestIsLast(b) <==> b.distTag != LATEST_DIST_TAG || NoneAfterEntry(b.packages)
  {
    if b.distTag != LATEST_DIST_TAG || NoneAfterEntry(b.packages) {
      forall r: Registry, k: nat |
        !Tagged(b, r, RELEASE_ENTRY_PACKAGE, LATEST_DIST_TAG)
        && Tagged(b, After(b, r, k), RELEASE_ENTRY_PACKAGE, LATEST_DIST_TAG)
        ensures Released(b, After(b, r, k))
      {
        LatestMovesLast(b, r, k);
      }
    } else {
      var i :| 0 <= i < |b.packages| - 1 && b.packages[i].name == RELEASE_ENTRY_PACKAGE;
      LatestMovesEarly(b, i);
      assert !Settled(b, After(b, Registry(map[], map[]), i + 1), b.packages[i + 1]);
    }
  }
}
