/** Schema key paths such as `agents[].id`, split into member and element
    steps. */
module KeyPaths {
  import opened Strings
  import opened PathLookup

  const HOP := "[]"

  /** The steps of one dot-separated segment: the member, then one element step
      for each trailing `[]`. */
  function SegmentSteps(segment: string): (steps: seq<Step>)
    ensures steps != [] && steps[0].Member?
    decreases |segment|
  {
    if EndsWith(segment, HOP) then SegmentSteps(segment[..|segment| - 2]) + [Element] else [Member(segment)]
  }

  function AllSteps(segments: seq<string>): seq<Step> {
    if segments == [] then [] else AllSteps(segments[..|segments| - 1]) + SegmentSteps(segments[|segments| - 1])
  }

  function StepsOf(path: string): seq<Step> {
    AllSteps(Split(path, '.'))
  }

  ghost function Hops(n: nat): seq<Step> {
    seq(n, _ => Element)
  }

  method ParsePath(path: string) returns (steps: seq<Step>)
    ensures steps == StepsOf(path)
  {
    steps := [];
    var segments := Split(path, '.');
    for k := 0 to |segments|
      invariant steps == AllSteps(segments[..k])
    {
      var name, arrays := segments[k], 0;
      while EndsWith(name, HOP)
        invariant SegmentSteps(segments[k]) == SegmentSteps(name) + Hops(arrays)
        decreases |name|
      {
        assert Hops(arrays + 1) == [Element] + Hops(arrays);
        name := name[..|name| - 2];
        arrays := arrays + 1;
      }
      ghost var before := steps;
      steps := steps + [Member(name)];
      for i := 0 to arrays
        invariant steps == before + [Member(name)] + Hops(i)
      {
        assert Hops(i + 1) == Hops(i) + [Element];
        steps := steps + [Element];
      }
      assert segments[..k + 1][..k] == segments[..k];
    }
    assert segments[..|segments|] == segments;
  }

  lemma {:induction false} AllStepsAppend(a: seq<string>, b: seq<string>)
    ensures AllSteps(a + b) == AllSteps(a) + AllSteps(b)
  {
    if b == [] {
      assert a + b == a;
    } else {
      assert (a + b)[..|a + b| - 1] == a + b[..|b| - 1];
      AllStepsAppend(a, b[..|b| - 1]);
    }
  }

  /** A key under a base path is looked up after the steps of the base. */
  lemma KeyUnderBase(base: string, key: string)
    ensures StepsOf(base + "." + key) == StepsOf(base) + StepsOf(key)
    ensures '.' !in key && !EndsWith(key, "[]") ==> StepsOf(base + "." + key) == StepsOf(base) + [Member(key)]
  {
    SplitAt(base, '.', key);
    AllStepsAppend(Split(base, '.'), Split(key, '.'));
    if '.' !in key && !EndsWith(key, HOP) {
      SplitPlain(key, '.');
      assert Split(key, '.')[..0] == [];
    }
  }

  /** `[]` after any path adds one element step at its end. */
  lemma ArrayUnderBase(base: string)
    ensures StepsOf(base + "[]") == StepsOf(base) + [Element]
  {
    SplitSuffix(base, HOP, '.');
    var parts := Split(base, '.');
    var front, last := parts[..|parts| - 1], parts[|parts| - 1];
    assert (front + [last + HOP])[..|front|] == front;
    assert AllSteps(front + [last + HOP]) == AllSteps(front) + SegmentSteps(last + HOP);
  }

  /** A key without dots that does not end in `[]` is one member. */
  lemma PlainKey(key: string)
    requires '.' !in key && !EndsWith(key, "[]")
    ensures StepsOf(key) == [Member(key)]
  {
    SplitPlain(key, '.');
    assert [key][..0] == [];
  }
}
