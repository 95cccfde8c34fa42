/** Publishing a release bundle: per package one registry write at most, then
    the entry package's `latest` tag, then verification.  The process may stop
    before any write; `steps` is the number of writes it still gets to make. */
module Publication {
  import opened Wrappers
  import opened Strings

  datatype Package = Package(name: string, integrity: string)

  datatype Bundle = Bundle(packages: seq<Package>, version: string, distTag: string)

  const RELEASE_ENTRY_PACKAGE := "@deepseek-ai/dsh"
  const LATEST_DIST_TAG := "latest"
  const SHA512 := "sha512-"

  /** Loading a bundle checks that names are distinct, and that each integrity
      is the SHA-512 one computed from the tarball. */
  ghost predicate ValidBundle(b: Bundle) {
    && (forall i, j :: 0 <= i < j < |b.packages| ==> b.packages[i].name != b.packages[j].name)
    && (forall p :: p in b.packages ==> StartsWith(p.integrity, SHA512))
  }

  /** Integrities by name and version, versions by name and tag. */
  datatype Registry = Registry(published: map<(string, string), string>, tags: map<(string, string), string>)

  datatype Write = PublishTarball(name: string, integrity: string) | AddTag(name: string, tag: string)

  datatype PublishError =
    | NoIntegrity(name: string)
    | DifferentIntegrity(name: string)
    | NoSuchVersion(name: string)

  function Tagged(b: Bundle, r: Registry, name: string, tag: string): bool {
    (name, tag) in r.tags && r.tags[(name, tag)] == b.version
  }

  function TagVersion(r: Registry, name: string, tag: string): Option<string> {
    if (name, tag) in r.tags then Some(r.tags[(name, tag)]) else None
  }

  function IsPublished(b: Bundle, r: Registry, name: string): bool {
    (name, b.version) in r.published
  }

  /** Publishing also sets the distribution tag it is given. */
  function Apply(b: Bundle, r: Registry, w: Write): Registry {
    match w
    case PublishTarball(name, integrity) =>
      Registry(r.published[(name, b.version) := integrity], r.tags[(name, b.distTag) := b.version])
    case AddTag(name, tag) => r.(tags := r.tags[(name, tag) := b.version])
  }

  function ApplyAll(b: Bundle, r: Registry, writes: seq<Write>): Registry
    decreases |writes|
  {
    if writes == [] then r else ApplyAll(b, Apply(b, r, writes[0]), writes[1..])
  }

  // ---------------------------------------------------------------------
  // The writes a run is going to make
  // ---------------------------------------------------------------------

  datatype Plan = Plan(writes: seq<Write>, error: Option<PublishError>)

  function PackageWrite(b: Bundle, r: Registry, p: Package): Result<Option<Write>, PublishError> {
    if !IsPublished(b, r, p.name) then Success(Some(PublishTarball(p.name, p.integrity)))
    else if !StartsWith(r.published[(p.name, b.version)], SHA512) then Failure(NoIntegrity(p.name))
    else if r.published[(p.name, b.version)] != p.integrity then Failure(DifferentIntegrity(p.name))
    else if !Tagged(b, r, p.name, b.distTag) then Success(Some(AddTag(p.name, b.distTag)))
    else Success(None)
  }

  function PlanLatest(b: Bundle, r: Registry): Plan {
    if Tagged(b, r, RELEASE_ENTRY_PACKAGE, LATEST_DIST_TAG) then Plan([], None)
    else if !IsPublished(b, r, RELEASE_ENTRY_PACKAGE) then Plan([], Some(NoSuchVersion(RELEASE_ENTRY_PACKAGE)))
    else Plan([AddTag(RELEASE_ENTRY_PACKAGE, LATEST_DIST_TAG)], None)
  }

  function PlanPackages(b: Bundle, packages: seq<Package>, r: Registry): Plan {
    if packages == [] then PlanLatest(b, r)
    else
      match PackageWrite(b, r, packages[0])
      case Failure(e) => Plan([], Some(e))
      case Success(None) => PlanPackages(b, packages[1..], r)
      case Success(Some(w)) =>
        var rest := PlanPackages(b, packages[1..], Apply(b, r, w));
        Plan([w] + rest.writes, rest.error)
  }

  function PlanOf(b: Bundle, r: Registry): Plan {
    PlanPackages(b, b.packages, r)
  }

  /** The registry after the first `k` writes of a run, or after all of them if
      there are fewer. */
  function After(b: Bundle, r: Registry, k: nat): Registry {
    var writes := PlanOf(b, r).writes;
    ApplyAll(b, r, if k <= |writes| then writes[..k] else writes)
  }

  // ---------------------------------------------------------------------
  // The plan, told from the starting registry alone
  // ---------------------------------------------------------------------

  ghost predicate DistinctNames(packages: seq<Package>) {
    forall i, j :: 0 <= i < j < |packages| ==> packages[i].name != packages[j].name
  }

  /** Something else is published as this version of the package. */
  ghost predicate Conflicts(b: Bundle, r: Registry, p: Package) {
    (p.name, b.version) in r.published && r.published[(p.name, b.version)] != p.integrity
  }

  ghost predicate IsFirstConflict(b: Bundle, packages: seq<Package>, r: Registry, k: int) {
    0 <= k < |packages| && Conflicts(b, r, packages[k]) && forall j :: 0 <= j < k ==> !Conflicts(b, r, packages[j])
  }

  ghost predicate NoneConflicts(b: Bundle, packages: seq<Package>, r: Registry) {
    forall p :: p in packages ==> !Conflicts(b, r, p)
  }

  /** The write a package takes, whatever is written for the others. */
  function OwnWrite(b: Bundle, r: Registry, p: Package): seq<Write> {
    if (p.name, b.version) !in r.published then [PublishTarball(p.name, p.integrity)]
    else if (p.name, b.distTag) in r.tags && r.tags[(p.name, b.distTag)] == b.version then []
    else [AddTag(p.name, b.distTag)]
  }

  function OwnWrites(b: Bundle, r: Registry, packages: seq<Package>): seq<Write> {
    if packages == [] then [] else OwnWrite(b, r, packages[0]) + OwnWrites(b, r, packages[1..])
  }

  ghost predicate HoldsEntry(packages: seq<Package>) {
    exists p :: p in packages && p.name == RELEASE_ENTRY_PACKAGE
  }

  ghost predicate LatestIsRight(b: Bundle, packages: seq<Package>, r: Registry) {
    Tagged(b, r, RELEASE_ENTRY_PACKAGE, LATEST_DIST_TAG) || (b.distTag == LATEST_DIST_TAG && HoldsEntry(packages))
  }

  ghost predicate EntryIsThere(b: Bundle, packages: seq<Package>, r: Registry) {
    IsPublished(b, r, RELEASE_ENTRY_PACKAGE) || HoldsEntry(packages)
  }

  /** Why a run from this registry fails, given that it gets that far. */
  ghost predicate IsRunError(b: Bundle, packages: seq<Package>, r: Registry, e: PublishError) {
    match e
    case DifferentIntegrity(name) =>
      exists k :: IsFirstConflict(b, packages, r, k) && packages[k].name == name
        && StartsWith(r.published[(name, b.version)], SHA512)
    case NoIntegrity(name) =>
      exists k :: IsFirstConflict(b, packages, r, k) && packages[k].name == name
        && !StartsWith(r.published[(name, b.version)], SHA512)
    case NoSuchVersion(name) =>
      && name == RELEASE_ENTRY_PACKAGE && NoneConflicts(b, packages, r)
      && !LatestIsRight(b, packages, r) && !EntryIsThere(b, packages, r)
  }

  lemma WriteTouchesOne(b: Bundle, r: Registry, p: Package, q: Package)
    requires PackageWrite(b, r, p).Success? && PackageWrite(b, r, p).value.Some? && q.name != p.name
    ensures var r' := Apply(b, r, PackageWrite(b, r, p).value.value);
      && (Conflicts(b, r', q) <==> Conflicts(b, r, q)) && OwnWrite(b, r', q) == OwnWrite(b, r, q)
      && (IsPublished(b, r', q.name) <==> IsPublished(b, r, q.name))
      && (IsPublished(b, r, q.name) ==> r'.published[(q.name, b.version)] == r.published[(q.name, b.version)])
  {
  }

  lemma {:induction false} SameOwnWrites(b: Bundle, r: Registry, r': Registry, packages: seq<Package>)
    requires forall p :: p in packages ==> OwnWrite(b, r', p) == OwnWrite(b, r, p)
    ensures OwnWrites(b, r', packages) == OwnWrites(b, r, packages)
  {
    if packages != [] { SameOwnWrites(b, r, r', packages[1..]); }
  }

  /** The registry before the second package's turn. */
  function AfterFirst(b: Bundle, packages: seq<Package>, r: Registry): Registry
    requires packages != [] && PackageWrite(b, r, packages[0]).Success?
  {
    var step := PackageWrite(b, r, packages[0]).value;
    if step.None? then r else Apply(b, r, step.value)
  }

  lemma RestIsUntouched(b: Bundle, packages: seq<Package>, r: Registry)
    requires DistinctNames(packages) && packages != [] && PackageWrite(b, r, packages[0]).Success?
    ensures forall q :: q in packages[1..] ==>
      var r' := AfterFirst(b, packages, r);
      && (Conflicts(b, r', q) <==> Conflicts(b, r, q)) && OwnWrite(b, r', q) == OwnWrite(b, r, q)
      && (IsPublished(b, r', q.name) <==> IsPublished(b, r, q.name))
      && (IsPublished(b, r, q.name) ==> r'.published[(q.name, b.version)] == r.published[(q.name, b.version)])
  {
    forall q | q in packages[1..]
      ensures PackageWrite(b, r, packages[0]).value.Some? ==> q.name != packages[0].name
    {
      var i :| 0 <= i < |packages[1..]| && packages[1..][i] == q;
      assert packages[i + 1] == q;
    }
    if PackageWrite(b, r, packages[0]).value.Some? {
      forall q | q in packages[1..] {
        WriteTouchesOne(b, r, packages[0], q);
      }
    }
  }

  lemma EntryAfterFirst(b: Bundle, packages: seq<Package>, r: Registry)
    requires packages != [] && PackageWrite(b, r, packages[0]).Success?
    ensures var r' := AfterFirst(b, packages, r);
      && (LatestIsRight(b, packages[1..], r') <==> LatestIsRight(b, packages, r))
      && (EntryIsThere(b, packages[1..], r') <==> EntryIsThere(b, packages, r))
  {
    assert packages == [packages[0]] + packages[1..];
    assert HoldsEntry(packages) <==> packages[0].name == RELEASE_ENTRY_PACKAGE || HoldsEntry(packages[1..]) by {
      assert packages[0] in packages;
    }
  }

  /** Without a conflict a run makes each package's own write, in order, and at
      the end moves `latest` if that is still to be done. */
  lemma {:induction false} PlanWithoutConflict(b: Bundle, packages: seq<Package>, r: Registry)
    requires DistinctNames(packages) && (forall p :: p in packages ==> StartsWith(p.integrity, SHA512))
    requires NoneConflicts(b, packages, r)
    ensures var latest := [AddTag(RELEASE_ENTRY_PACKAGE, LATEST_DIST_TAG)];
      PlanPackages(b, packages, r) ==
        if LatestIsRight(b, packages, r) then Plan(OwnWrites(b, r, packages), None)
        else if EntryIsThere(b, packages, r) then Plan(OwnWrites(b, r, packages) + latest, None)
        else Plan(OwnWrites(b, r, packages), Some(NoSuchVersion(RELEASE_ENTRY_PACKAGE)))
  {
    if packages == [] {
      assert OwnWrites(b, r, packages) + [AddTag(RELEASE_ENTRY_PACKAGE, LATEST_DIST_TAG)] ==
             [AddTag(RELEASE_ENTRY_PACKAGE, LATEST_DIST_TAG)];
    } else {
      assert packages[0] in packages && !Conflicts(b, r, packages[0]);
      var r' := AfterFirst(b, packages, r);
      RestIsUntouched(b, packages, r);
      EntryAfterFirst(b, packages, r);
      SameOwnWrites(b, r, r', packages[1..]);
      PlanWithoutConflict(b, packages[1..], r');
      FirstPlanned(b, packages, r);
    }
  }

  lemma FirstPlanned(b: Bundle, packages: seq<Package>, r: Registry)
    requires packages != [] && PackageWrite(b, r, packages[0]).Success? && !Conflicts(b, r, packages[0])
    ensures var rest := PlanPackages(b, packages[1..], AfterFirst(b, packages, r));
      PlanPackages(b, packages, r) == Plan(OwnWrite(b, r, packages[0]) + rest.writes, rest.error)
  {
    var rest := PlanPackages(b, packages[1..], AfterFirst(b, packages, r));
    assert [] + rest.writes == rest.writes;
  }

  /** With one, it makes those of the packages before the first conflict, and
      says what is wrong there. */
  lemma {:induction false} PlanToConflict(b: Bundle, packages: seq<Package>, r: Registry, k: int)
    requires DistinctNames(packages) && (forall p :: p in packages ==> StartsWith(p.integrity, SHA512))
    requires IsFirstConflict(b, packages, r, k)
    ensures var name := packages[k].name;
      PlanPackages(b, packages, r) == Plan(OwnWrites(b, r, packages[..k]),
        Some(if StartsWith(r.published[(name, b.version)], SHA512) then DifferentIntegrity(name) else NoIntegrity(name)))
    decreases |packages|
  {
    if k > 0 {
      assert packages[0] in packages && !Conflicts(b, r, packages[0]);
      var rest, r' := packages[1..], AfterFirst(b, packages, r);
      RestIsUntouched(b, packages, r);
      forall j | 0 <= j < k
        ensures rest[j] in rest && rest[j] == packages[j + 1]
      {
      }
      PlanToConflict(b, rest, r', k - 1);
      SameOwnWrites(b, r, r', rest[..k - 1]);
      FirstPlanned(b, packages, r);
      assert packages[..k][1..] == rest[..k - 1];
    }
  }

  /** The error a run ends with is the one the starting registry gives cause for. */
  lemma RunErrorIff(b: Bundle, r: Registry, e: PublishError)
    requires ValidBundle(b)
    ensures PlanOf(b, r).error == Some(e) <==> IsRunError(b, b.packages, r, e)
  {
    if NoneConflicts(b, b.packages, r) {
      PlanWithoutConflict(b, b.packages, r);
    } else {
      var k := FirstConflictIn(b, b.packages, r);
      PlanToConflict(b, b.packages, r, k);
      assert b.packages[k] in b.packages;
    }
  }

  lemma RunErrors(b: Bundle, r: Registry)
    requires ValidBundle(b)
    ensures forall e :: PlanOf(b, r).error == Some(e) <==> IsRunError(b, b.packages, r, e)
  {
    forall e
      ensures PlanOf(b, r).error == Some(e) <==> IsRunError(b, b.packages, r, e)
    {
      RunErrorIff(b, r, e);
    }
  }

  lemma {:induction false} FirstConflictIn(b: Bundle, packages: seq<Package>, r: Registry) returns (k: int)
    requires !NoneConflicts(b, packages, r)
    ensures IsFirstConflict(b, packages, r, k)
  {
    if Conflicts(b, r, packages[0]) {
      k := 0;
    } else {
      assert packages == [packages[0]] + packages[1..];
      k := FirstConflictIn(b, packages[1..], r);
      k := k + 1;
    }
  }

  // ---------------------------------------------------------------------
  // The run
  // ---------------------------------------------------------------------

  /** What verification finds wrong with a package. */
  datatype Fault =
    | PackageMissing(name: string)
    | Unreadable(name: string)
    | IntegrityMismatch(name: string)
    | WrongTag(name: string, tag: string, points: Option<string>)

  ghost predicate IsFault(b: Bundle, r: Registry, p: Package, fault: Fault) {
    fault.name == p.name &&
    match fault
    case PackageMissing(_) => !IsPublished(b, r, p.name)
    case Unreadable(_) => IsPublished(b, r, p.name) && !StartsWith(r.published[(p.name, b.version)], SHA512)
    case IntegrityMismatch(_) =>
      && IsPublished(b, r, p.name) && StartsWith(r.published[(p.name, b.version)], SHA512)
      && r.published[(p.name, b.version)] != p.integrity
    case WrongTag(_, tag, points) =>
      && IsPublished(b, r, p.name) && r.published[(p.name, b.version)] == p.integrity
      && tag == b.distTag && points == TagVersion(r, p.name, b.distTag) != Some(b.version)
  }

  /** The fault of a package all of whose predecessors are as they should be. */
  ghost predicate IsFirstFault(b: Bundle, r: Registry, fault: Fault) {
    exists k {:trigger IsFault(b, r, b.packages[k], fault)} ::
      && 0 <= k < |b.packages| && IsFault(b, r, b.packages[k], fault)
      && forall j :: 0 <= j < k ==> Settled(b, r, b.packages[j])
  }

  datatype Progress = Going(steps: nat) | Crashed | Failed(error: PublishError)

  class RegistryPublication {
    const bundle: Bundle
    var published: map<(string, string), string>
    var tags: map<(string, string), string>

    function View(): Registry
      reads this
    {
      Registry(published, tags)
    }

    constructor (bundle: Bundle, registry: Registry)
      ensures this.bundle == bundle && View() == registry
    {
      this.bundle := bundle;
      published, tags := registry.published, registry.tags;
    }

    /** `npm view`: the integrity published under the bundle's version. */
    method RemoteIntegrity(name: string) returns (r: Result<Option<string>, PublishError>)
      ensures !IsPublished(bundle, View(), name) ==> r == Success(None)
      ensures IsPublished(bundle, View(), name) ==>
        var value := published[(name, bundle.version)];
        r == if StartsWith(value, SHA512) then Success(Some(value)) else Failure(NoIntegrity(name))
    {
      if (name, bundle.version) !in published { return Success(None); }
      var value := published[(name, bundle.version)];
      if !StartsWith(value, SHA512) { return Failure(NoIntegrity(name)); }
      return Success(Some(value));
    }

    method RemoteDistTag(name: string, tag: string) returns (version: Option<string>)
      ensures version == TagVersion(View(), name, tag)
      ensures version == Some(bundle.version) <==> Tagged(bundle, View(), name, tag)
    {
      version := if (name, tag) in tags then Some(tags[(name, tag)]) else None;
    }

    method NpmPublish(p: Package, steps: nat) returns (progress: Progress)
      requires !IsPublished(bundle, View(), p.name)
      modifies this
      ensures steps == 0 ==> progress == Crashed && View() == old(View())
      ensures steps > 0 ==>
        progress == Going(steps - 1) && View() == Apply(bundle, old(View()), PublishTarball(p.name, p.integrity))
    {
      if steps == 0 { return Crashed; }
      published := published[(p.name, bundle.version) := p.integrity];
      tags := tags[(p.name, bundle.distTag) := bundle.version];
      return Going(steps - 1);
    }

    method EnsureDistTag(name: string, tag: string, steps: nat) returns (progress: Progress)
      modifies this
      ensures Tagged(bundle, old(View()), name, tag) ==> progress == Going(steps) && View() == old(View())
      ensures !Tagged(bundle, old(View()), name, tag) && !IsPublished(bundle, old(View()), name) ==>
        progress == Failed(NoSuchVersion(name)) && View() == old(View())
      ensures !Tagged(bundle, old(View()), name, tag) && IsPublished(bundle, old(View()), name) ==>
        if steps == 0 then progress == Crashed && View() == old(View())
        else progress == Going(steps - 1) && View() == Apply(bundle, old(View()), AddTag(name, tag))
    {
      var current := RemoteDistTag(name, tag);
      if current == Some(bundle.version) { return Going(steps); }
      if (name, bundle.version) !in published { return Failed(NoSuchVersion(name)); }
      if steps == 0 { return Crashed; }
      tags := tags[(name, tag) := bundle.version];
      return Going(steps - 1);
    }

    /** One turn of the publishing loop: at most one write. */
    method PublishPackage(p: Package, steps: nat) returns (progress: Progress)
      modifies this
      ensures match PackageWrite(bundle, old(View()), p)
        case Failure(e) => progress == Failed(e) && View() == old(View())
        case Success(None) => progress == Going(steps) && View() == old(View())
        case Success(Some(w)) =>
          if steps == 0 then progress == Crashed && View() == old(View())
          else progress == Going(steps - 1) && View() == Apply(bundle, old(View()), w)
    {
      var integrity := RemoteIntegrity(p.name);
      if integrity.Failure? { return Failed(integrity.error); }
      var left := steps;
      if integrity.value.None? {
        progress := NpmPublish(p, left);
        if !progress.Going? { return; }
        left := progress.steps;
      } else if integrity.value.value != p.integrity {
        return Failed(DifferentIntegrity(p.name));
      }
      progress := EnsureDistTag(p.name, bundle.distTag, left);
    }

    /** Publishes the packages in order and moves `latest` last.  The registry
        afterwards holds as many of the planned writes as there were steps for. */
    method Publish(steps: nat) returns (progress: Progress)
      requires ValidBundle(bundle)
      modifies this
      ensures View() == After(bundle, old(View()), steps)
      ensures var plan := PlanOf(bundle, old(View()));
        progress == if steps < |plan.writes| then Crashed
                    else if plan.error.Some? then Failed(plan.error.value)
                    else Going(steps - |plan.writes|)
      ensures progress.Going? ==> Released(bundle, View())
      ensures forall e :: progress == Failed(e) <==>
        steps >= |PlanOf(bundle, old(View())).writes| && IsRunError(bundle, bundle.packages, old(View()), e)
    {
      RunErrors(bundle, View());
      progress := PublishPlanned(steps);
    }

    /** The loop over the packages, the tag of the entry package and the final
        verification. */
    method PublishPlanned(steps: nat) returns (progress: Progress)
      requires ValidBundle(bundle)
      modifies this
      ensures IsOutcome(bundle, old(View()), steps, progress, View())
    {
      ghost var start := View();
      ghost var made: nat := 0;
      var left: nat := steps;
      assert bundle.packages[0..] == bundle.packages;
      for k := 0 to |bundle.packages|
        invariant left + made == steps
        invariant Midway(bundle, start, k, made, View())
      {
        ghost var before := View();
        progress := PublishPackage(bundle.packages[k], left);
        AfterTurn(bundle, start, k, made, steps, before, progress, View());
        if !progress.Going? { return; }
        made := made + left - progress.steps;
        left := progress.steps;
      }
      ghost var before := View();
      progress := EnsureDistTag(RELEASE_ENTRY_PACKAGE, LATEST_DIST_TAG, left);
      AfterLatest(bundle, start, made, steps, before, progress, View());
      if !progress.Going? { return; }
      var fault := Verify();
      assert fault.None?;
    }

    /** Passes exactly on a released registry. */
    method Verify() returns (fault: Option<Fault>)
      ensures fault.None? <==> Released(bundle, View())
    {
      fault := VerifyRemote();
      if fault.None? { fault := VerifyReleaseEntryDistTag(); }
    }

    /** Stops at the first package that is not as the bundle has it, and says
        what is wrong there. */
    method VerifyRemote() returns (fault: Option<Fault>)
      ensures fault.None? <==> forall p :: p in bundle.packages ==> Settled(bundle, View(), p)
      ensures fault.Some? ==> IsFirstFault(bundle, View(), fault.value)
    {
      for k := 0 to |bundle.packages|
        invariant forall j :: 0 <= j < k ==> Settled(bundle, View(), bundle.packages[j])
      {
        var p := bundle.packages[k];
        var integrity := RemoteIntegrity(p.name);
        var version := RemoteDistTag(p.name, bundle.distTag);
        if integrity.Failure? {
          fault := Some(Unreadable(p.name));
        } else if integrity.value.None? {
          fault := Some(PackageMissing(p.name));
        } else if integrity.value.value != p.integrity {
          fault := Some(IntegrityMismatch(p.name));
        } else if version != Some(bundle.version) {
          fault := Some(WrongTag(p.name, bundle.distTag, version));
        } else {
          fault := None;
        }
        if fault.Some? {
          assert IsFault(bundle, View(), bundle.packages[k], fault.value);
          assert p in bundle.packages && !Settled(bundle, View(), p);
          return;
        }
      }
      return None;
    }

    method VerifyReleaseEntryDistTag() returns (fault: Option<Fault>)
      ensures fault.None? <==> Tagged(bundle, View(), RELEASE_ENTRY_PACKAGE, LATEST_DIST_TAG)
      ensures fault.Some? ==>
        fault.value ==
        WrongTag(RELEASE_ENTRY_PACKAGE, LATEST_DIST_TAG, TagVersion(View(), RELEASE_ENTRY_PACKAGE, LATEST_DIST_TAG))
    {
      var version := RemoteDistTag(RELEASE_ENTRY_PACKAGE, LATEST_DIST_TAG);
      fault :=
        if version == Some(bundle.version) then None
        else Some(WrongTag(RELEASE_ENTRY_PACKAGE, LATEST_DIST_TAG, version));
    }
  }

  lemma {:induction false} ApplyOneMore(b: Bundle, r: Registry, writes: seq<Write>, w: Write)
    ensures ApplyAll(b, r, writes + [w]) == Apply(b, ApplyAll(b, r, writes), w)
    decreases |writes|
  {
    if writes == [] {
      assert [w][1..] == [];
    } else {
      assert (writes + [w])[1..] == writes[1..] + [w];
      ApplyOneMore(b, Apply(b, r, writes[0]), writes[1..], w);
    }
  }

  lemma OneMoreWrite(b: Bundle, start: Registry, writes: seq<Write>, made: nat)
    requires made < |writes|
    ensures ApplyAll(b, start, writes[..made + 1]) == Apply(b, ApplyAll(b, start, writes[..made]), writes[made])
  {
    assert writes[..made + 1] == writes[..made] + [writes[made]];
    ApplyOneMore(b, start, writes[..made], writes[made]);
  }

  /** Before package `k`, with `made` of the planned writes made. */
  ghost predicate Midway(b: Bundle, start: Registry, k: nat, made: nat, now: Registry) {
    var plan := PlanOf(b, start);
    && k <= |b.packages| && made <= |plan.writes|
    && now == ApplyAll(b, start, plan.writes[..made])
    && PlanPackages(b, b.packages[k..], now) == Plan(plan.writes[made..], plan.error)
  }

  lemma MidwayTurn(b: Bundle, start: Registry, k: nat, made: nat, now: Registry)
    requires Midway(b, start, k, made, now) && k < |b.packages|
    ensures match PackageWrite(b, now, b.packages[k])
      case Failure(e) => made == |PlanOf(b, start).writes| && PlanOf(b, start).error == Some(e)
      case Success(None) => Midway(b, start, k + 1, made, now)
      case Success(Some(w)) =>
        made < |PlanOf(b, start).writes| && Midway(b, start, k + 1, made + 1, Apply(b, now, w))
  {
    var writes := PlanOf(b, start).writes;
    assert b.packages[k..][1..] == b.packages[k + 1..] && b.packages[k..][0] == b.packages[k];
    var step := PackageWrite(b, now, b.packages[k]);
    if step.Success? && step.value.Some? {
      assert writes[made..][1..] == writes[made + 1..] && writes[made..][0] == writes[made];
      OneMoreWrite(b, start, writes, made);
    }
  }

  lemma MidwayLatest(b: Bundle, start: Registry, made: nat, now: Registry)
    requires Midway(b, start, |b.packages|, made, now)
    ensures var plan := PlanOf(b, start);
      && PlanLatest(b, now) == Plan(plan.writes[made..], plan.error)
      && plan.writes[..|plan.writes|] == plan.writes
      && (made < |plan.writes| ==> ApplyAll(b, start, plan.writes) == Apply(b, now, plan.writes[made]))
  {
    var writes := PlanOf(b, start).writes;
    assert b.packages[|b.packages|..] == [] && writes[..|writes|] == writes;
    if made < |writes| { OneMoreWrite(b, start, writes, made); }
  }

  /** A run that has made `made` writes stops there for good when its steps or
      its planned writes are used up. */
  lemma StopsHere(b: Bundle, start: Registry, made: nat, steps: nat)
    requires made <= |PlanOf(b, start).writes| && made <= steps
    ensures made == steps || made == |PlanOf(b, start).writes| ==>
      After(b, start, steps) == ApplyAll(b, start, PlanOf(b, start).writes[..made])
  {
    var writes := PlanOf(b, start).writes;
    assert writes[..|writes|] == writes;
  }

  /** How a run with so many steps ends. */
  ghost predicate IsOutcome(b: Bundle, start: Registry, steps: nat, progress: Progress, end: Registry) {
    var plan := PlanOf(b, start);
    && end == After(b, start, steps)
    && progress == (if steps < |plan.writes| then Crashed
                    else if plan.error.Some? then Failed(plan.error.value)
                    else Going(steps - |plan.writes|))
    && (progress.Going? ==> Released(b, end))
  }

  /** What a turn that found `before` and left `after` does to the run. */
  lemma {:induction false} AfterTurn(b: Bundle, start: Registry, k: nat, made: nat, steps: nat, before: Registry,
                                     progress: Progress, after: Registry)
    requires Midway(b, start, k, made, before) && k < |b.packages| && made <= steps
    requires match PackageWrite(b, before, b.packages[k])
      case Failure(e) => progress == Failed(e) && after == before
      case Success(None) => progress == Going(steps - made) && after == before
      case Success(Some(w)) =>
        if steps == made then progress == Crashed && after == before
        else progress == Going(steps - made - 1) && after == Apply(b, before, w)
    ensures if progress.Going? then progress.steps <= steps - made && Midway(b, start, k + 1, steps - progress.steps, after)
            else IsOutcome(b, start, steps, progress, after)
  {
    MidwayTurn(b, start, k, made, before);
    StopsHere(b, start, made, steps);
  }

  lemma {:induction false} AfterLatest(b: Bundle, start: Registry, made: nat, steps: nat, before: Registry,
                                       progress: Progress, after: Registry)
    requires ValidBundle(b) && Midway(b, start, |b.packages|, made, before) && made <= steps
    requires Tagged(b, before, RELEASE_ENTRY_PACKAGE, LATEST_DIST_TAG) ==> progress == Going(steps - made) && after == before
    requires !Tagged(b, before, RELEASE_ENTRY_PACKAGE, LATEST_DIST_TAG) && !IsPublished(b, before, RELEASE_ENTRY_PACKAGE) ==>
      progress == Failed(NoSuchVersion(RELEASE_ENTRY_PACKAGE)) && after == before
    requires !Tagged(b, before, RELEASE_ENTRY_PACKAGE, LATEST_DIST_TAG) && IsPublished(b, before, RELEASE_ENTRY_PACKAGE) ==>
      if steps == made then progress == Crashed && after == before
      else progress == Going(steps - made - 1) && after == Apply(b, before, AddTag(RELEASE_ENTRY_PACKAGE, LATEST_DIST_TAG))
    ensures IsOutcome(b, start, steps, progress, after)
  {
    MidwayLatest(b, start, made, before);
    StopsHere(b, start, made, steps);
    if progress.Going? {
      StopsHere(b, start, steps - progress.steps, steps);
      CompletedIsReleased(b, start);
    }
  }

  // ---------------------------------------------------------------------
  // What a run achieves
  // ---------------------------------------------------------------------

  /** The package is in the registry as the bundle has it, under its tag. */
  ghost predicate Settled(b: Bundle, r: Registry, p: Package) {
    && IsPublished(b, r, p.name) && r.published[(p.name, b.version)] == p.integrity
    && StartsWith(p.integrity, SHA512)
    && Tagged(b, r, p.name, b.distTag)
  }

  ghost predicate Released(b: Bundle, r: Registry) {
    && (forall p :: p in b.packages ==> Settled(b, r, p))
    && Tagged(b, r, RELEASE_ENTRY_PACKAGE, LATEST_DIST_TAG)
  }

  ghost predicate PublishesOnly(writes: seq<Write>, packages: seq<Package>) {
    forall w :: w in writes && w.PublishTarball? ==> exists p :: p in packages && p.name == w.name
  }

  lemma {:induction false} PlanPublishesOnly(b: Bundle, packages: seq<Package>, r: Registry)
    ensures PublishesOnly(PlanPackages(b, packages, r).writes, packages)
  {
    if packages != [] {
      var rest := packages[1..];
      match PackageWrite(b, r, packages[0])
      case Failure(_) =>
      case Success(None) => PlanPublishesOnly(b, rest, r);
      case Success(Some(w)) =>
        PlanPublishesOnly(b, rest, Apply(b, r, w));
        assert packages[0] in packages;
    }
  }

  lemma {:induction false} SettledStays(b: Bundle, r: Registry, writes: seq<Write>, p: Package)
    requires Settled(b, r, p)
    requires forall w :: w in writes && w.PublishTarball? ==> w.name != p.name
    ensures Settled(b, ApplyAll(b, r, writes), p)
    decreases |writes|
  {
    if writes != [] { SettledStays(b, Apply(b, r, writes[0]), writes[1..], p); }
  }

  /** A package stays settled through the writes planned for the others. */
  lemma RestLeavesSettled(b: Bundle, packages: seq<Package>, r: Registry, k: nat)
    requires packages != [] && DistinctNames(packages) && Settled(b, r, packages[0])
    requires k <= |PlanPackages(b, packages[1..], r).writes|
    ensures Settled(b, ApplyAll(b, r, PlanPackages(b, packages[1..], r).writes[..k]), packages[0])
  {
    PlanPublishesOnly(b, packages[1..], r);
    SettledStays(b, r, PlanPackages(b, packages[1..], r).writes[..k], packages[0]);
  }

  lemma WrittenIsSettled(b: Bundle, r: Registry, p: Package)
    requires StartsWith(p.integrity, SHA512) && PackageWrite(b, r, p).Success?
    ensures PackageWrite(b, r, p).value.None? ==> Settled(b, r, p)
    ensures PackageWrite(b, r, p).value.Some? ==> Settled(b, Apply(b, r, PackageWrite(b, r, p).value.value), p)
  {
  }

  lemma {:induction false} PlanSettles(b: Bundle, packages: seq<Package>, r: Registry)
    requires DistinctNames(packages) && forall p :: p in packages ==> StartsWith(p.integrity, SHA512)
    requires PlanPackages(b, packages, r).error.None?
    ensures var end := ApplyAll(b, r, PlanPackages(b, packages, r).writes);
      && (forall p :: p in packages ==> Settled(b, end, p))
      && Tagged(b, end, RELEASE_ENTRY_PACKAGE, LATEST_DIST_TAG)
  {
    var writes := PlanPackages(b, packages, r).writes;
    if packages == [] {
      if writes != [] { assert writes[1..] == []; }
    } else {
      var step := PackageWrite(b, r, packages[0]).value;
      WrittenIsSettled(b, r, packages[0]);
      var next := if step.None? then r else Apply(b, r, step.value);
      PlanSettles(b, packages[1..], next);
      var rest := PlanPackages(b, packages[1..], next).writes;
      RestLeavesSettled(b, packages, next, |rest|);
      assert rest[..|rest|] == rest;
      if step.Some? { assert writes[1..] == rest; }
    }
  }

  /** A run that ends without error leaves every package and both tags right. */
  lemma CompletedIsReleased(b: Bundle, r: Registry)
    requires ValidBundle(b) && PlanOf(b, r).error.None?
    ensures Released(b, ApplyAll(b, r, PlanOf(b, r).writes))
  {
    PlanSettles(b, b.packages, r);
  }

  /** What a released registry holds, under the names it is asked for. */
  lemma ReleasedMeans(b: Bundle, r: Registry)
    requires Released(b, r)
    ensures ("@deepseek-ai/dsh", "latest") in r.tags && r.tags[("@deepseek-ai/dsh", "latest")] == b.version
    ensures forall p :: p in b.packages ==>
      && (p.name, b.version) in r.published && r.published[(p.name, b.version)] == p.integrity
      && |p.integrity| >= 7 && p.integrity[..7] == "sha512-"
      && (p.name, b.distTag) in r.tags && r.tags[(p.name, b.distTag)] == b.version
  {
    assert forall p :: p in b.packages ==> Settled(b, r, p);
  }
}
