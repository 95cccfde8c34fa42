/** The consistency record of a bilingual pair: its paths, rendering the two
    hashes and reading them back. */
module PairingRecord {
  import opened Wrappers
  import opened Strings

  datatype PairPaths = PairPaths(source: string, zh: string, meta: string)

  datatype Record = Record(sourceHash: string, zhHash: string)

  const MD := ".md"
  const ZH_MD := ".zh.md"
  const I18N_YAML := ".i18n.yaml"

  function WithoutEnd(s: string, n: nat): string
    requires n <= |s|
  {
    s[..|s| - n]
  }

  function TranslationPairPaths(source: string): Result<PairPaths, string> {
    if !EndsWith(source, MD) || EndsWith(source, ZH_MD) then Failure(source)
    else Success(PairPaths(source, WithoutEnd(source, 3) + ZH_MD, WithoutEnd(source, 3) + I18N_YAML))
  }

  function TranslationPairPathsFromMeta(meta: string): Result<PairPaths, string> {
    if !EndsWith(meta, I18N_YAML) then Failure(meta) else TranslationPairPaths(WithoutEnd(meta, 10) + MD)
  }

  /** The pair found from a pair's record is the pair. */
  lemma PairFoundFromMeta(source: string)
    requires TranslationPairPaths(source).Success?
    ensures TranslationPairPathsFromMeta(TranslationPairPaths(source).value.meta) == TranslationPairPaths(source)
  {
    var base := WithoutEnd(source, 3);
    var meta := base + I18N_YAML;
    assert meta[|meta| - 10..] == I18N_YAML && WithoutEnd(meta, 10) == base;
    assert source == base + MD;
  }

  function Basename(path: string): string {
    var parts := Split(path, '/');
    parts[|parts| - 1]
  }

  predicate IsHash(s: string) {
    |s| == 40 && forall i | 0 <= i < 40 :: '0' <= s[i] <= '9' || 'a' <= s[i] <= 'f'
  }

  /** What may stand before the colon of an entry. */
  predicate IsKey(s: string) {
    |s| > 3 && EndsWith(s, MD) && ':' !in s && '#' !in s
  }

  /** A line `key: hash`; a key holds no colon, so the first one ends it. */
  function ParseLine(line: string): (entry: Option<(string, string)>)
    ensures entry.Some? ==> IsKey(entry.value.0) && IsHash(entry.value.1) && line == entry.value.0 + ": " + entry.value.1
  {
    if |line| < 42 then None
    else
      var key, separator, hash := line[..|line| - 42], line[|line| - 42..|line| - 40], line[|line| - 40..];
      if IsKey(key) && separator == ": " && IsHash(hash) then
        assert line == key + separator + hash;
        Some((key, hash))
      else None
  }

  predicate IsSkipped(line: string) {
    line == "" || line[0] == '#'
  }

  /** Adds a line's entry, unless it is malformed or repeats a key. */
  function Step(hashes: Option<map<string, string>>, line: string): Option<map<string, string>> {
    if hashes.None? || IsSkipped(line) then hashes
    else
      var entry := ParseLine(line);
      if entry.None? || entry.value.0 in hashes.value then None
      else Some(hashes.value[entry.value.0 := entry.value.1])
  }

  function Entries(lines: seq<string>): Option<map<string, string>> {
    if lines == [] then Some(map[]) else Step(Entries(lines[..|lines| - 1]), lines[|lines| - 1])
  }

  function RecordOf(hashes: map<string, string>, paths: PairPaths): Option<Record> {
    var source, zh := Basename(paths.source), Basename(paths.zh);
    if |hashes| != 2 || source !in hashes || zh !in hashes then None else Some(Record(hashes[source], hashes[zh]))
  }

  function ParsedRecord(content: string, paths: PairPaths): Option<Record> {
    var hashes := Entries(Split(content, '\n'));
    if hashes.None? then None else RecordOf(hashes.value, paths)
  }

  method ParseTranslationPairingRecord(content: string, paths: PairPaths) returns (r: Option<Record>)
    ensures r == ParsedRecord(content, paths)
  {
    var lines := Split(content, '\n');
    var hashes: map<string, string> := map[];
    for k := 0 to |lines|
      invariant Entries(lines[..k]) == Some(hashes)
    {
      assert lines[..k + 1][..k] == lines[..k];
      if !IsSkipped(lines[k]) {
        var entry := ParseLine(lines[k]);
        if entry.None? || entry.value.0 in hashes {
          RejectionStays(lines, k + 1);
          return None;
        }
        hashes := hashes[entry.value.0 := entry.value.1];
      }
    }
    assert lines[..|lines|] == lines;
    return RecordOf(hashes, paths);
  }

  lemma {:induction false} RejectionStays(lines: seq<string>, k: nat)
    requires k <= |lines| && Entries(lines[..k]).None?
    ensures Entries(lines).None?
    decreases |lines|
  {
    if k < |lines| {
      assert lines[..|lines| - 1][..k] == lines[..k];
      RejectionStays(lines[..|lines| - 1], k);
    } else {
      assert lines[..k] == lines;
    }
  }

  /** The lines above the entries; the path is put after the last. */
  datatype Heading = Heading(first: string, second: string, third: string, command: string)

  predicate IsPlainComment(text: string) {
    text != [] && text[0] == '#' && '\n' !in text
  }

  predicate IsHeading(h: Heading) {
    IsPlainComment(h.first) && IsPlainComment(h.second) && IsPlainComment(h.third) && IsPlainComment(h.command)
  }

  function EntryLine(key: string, hash: string): string {
    key + ": " + hash
  }

  function RenderTranslationPairingRecord(h: Heading, paths: PairPaths, record: Record): string {
    Join([
      h.first,
      h.second,
      h.third,
      h.command + paths.source,
      EntryLine(Basename(paths.source), record.sourceHash),
      EntryLine(Basename(paths.zh), record.zhHash),
      ""], '\n')
  }

  // ---------------------------------------------------------------------
  // What is accepted
  // ---------------------------------------------------------------------

  /** The lines that are neither empty nor comments. */
  function Significant(lines: seq<string>): seq<string> {
    if lines == [] then []
    else
      var last := lines[|lines| - 1];
      Significant(lines[..|lines| - 1]) + if IsSkipped(last) then [] else [last]
  }

  lemma {:induction false} SignificantAppend(a: seq<string>, b: seq<string>)
    ensures Significant(a + b) == Significant(a) + Significant(b)
  {
    if b == [] {
      assert a + b == a;
    } else {
      assert (a + b)[..|a + b| - 1] == a + b[..|b| - 1];
      SignificantAppend(a, b[..|b| - 1]);
    }
  }

  lemma {:induction false} SignificantMember(lines: seq<string>, line: string)
    ensures line in Significant(lines) <==> line in lines && !IsSkipped(line)
  {
    if lines != [] {
      SignificantMember(lines[..|lines| - 1], line);
      assert lines == lines[..|lines| - 1] + [lines[|lines| - 1]];
    }
  }

  /** Skipped lines play no part, and every other line adds one entry. */
  lemma {:induction false} OnlySignificantCount(lines: seq<string>)
    ensures Entries(lines) == Entries(Significant(lines))
    ensures Entries(lines).Some? ==> |Entries(lines).value| == |Significant(lines)|
  {
    if lines != [] {
      var earlier, last := lines[..|lines| - 1], lines[|lines| - 1];
      OnlySignificantCount(earlier);
      if IsSkipped(last) {
        assert Significant(earlier) + [] == Significant(earlier);
      } else {
        assert (Significant(earlier) + [last])[..|Significant(earlier)|] == Significant(earlier);
      }
    }
  }

  lemma TwoEntries(first: string, second: string)
    ensures Entries([first, second]) == Step(Step(Some(map[]), first), second)
  {
    assert [first, second][..1] == [first] && [first][..0] == [];
    assert Entries([first]) == Step(Some(map[]), first);
  }

  /** Two lines giving two entries are the lines of those entries. */
  lemma BothEntries(first: string, second: string, source: string, zh: string)
    requires !IsSkipped(first) && !IsSkipped(second) && source != zh
    requires var hashes := Entries([first, second]); hashes.Some? && source in hashes.value && zh in hashes.value
    ensures var hashes := Entries([first, second]).value;
      && IsKey(source) && IsKey(zh) && IsHash(hashes[source]) && IsHash(hashes[zh])
      && var s, z := EntryLine(source, hashes[source]), EntryLine(zh, hashes[zh]);
        [first, second] == [s, z] || [first, second] == [z, s]
  {
    TwoEntries(first, second);
    assert ParseLine(first).Some? && ParseLine(second).Some?;
    var a, b := ParseLine(first).value, ParseLine(second).value;
    assert Entries([first, second]).value == map[a.0 := a.1][b.0 := b.1];
  }

  lemma EntriesGiveRecord(source: string, zh: string, record: Record)
    requires source != zh && IsKey(source) && IsKey(zh) && IsHash(record.sourceHash) && IsHash(record.zhHash)
    ensures var s, z := EntryLine(source, record.sourceHash), EntryLine(zh, record.zhHash);
      Entries([s, z]) == Entries([z, s]) == Some(map[source := record.sourceHash, zh := record.zhHash])
  {
    var s, z := EntryLine(source, record.sourceHash), EntryLine(zh, record.zhHash);
    TwoEntries(s, z);
    TwoEntries(z, s);
    var expected := map[source := record.sourceHash, zh := record.zhHash];
    assert map[source := record.sourceHash][zh := record.zhHash] == expected;
    assert map[zh := record.zhHash][source := record.sourceHash] == expected;
    assert Entries([s, z]) == Some(map[][source := record.sourceHash][zh := record.zhHash]);
    assert Entries([z, s]) == Some(map[][zh := record.zhHash][source := record.sourceHash]);
  }

  /** A record is accepted exactly when its significant lines are the entries
      of the two sides, in either order: no duplicate and no other key. */
  lemma AcceptedRecords(content: string, paths: PairPaths, record: Record)
    requires Basename(paths.source) != Basename(paths.zh)
    ensures var source, zh := Basename(paths.source), Basename(paths.zh);
      var s, z := source + ": " + record.sourceHash, zh + ": " + record.zhHash;
      var significant := Significant(Split(content, '\n'));
      ParsedRecord(content, paths) == Some(record) <==>
        && IsKey(source) && IsKey(zh) && IsHash(record.sourceHash) && IsHash(record.zhHash)
        && (significant == [s, z] || significant == [z, s])
  {
    var source, zh := Basename(paths.source), Basename(paths.zh);
    var lines := Split(content, '\n');
    var significant := Significant(lines);
    OnlySignificantCount(lines);
    if ParsedRecord(content, paths) == Some(record) {
      assert significant == [significant[0], significant[1]];
      BothSignificant(lines);
      BothEntries(significant[0], significant[1], source, zh);
    } else if IsKey(source) && IsKey(zh) && IsHash(record.sourceHash) && IsHash(record.zhHash) {
      EntriesGiveRecord(source, zh, record);
    }
  }

  lemma BothSignificant(lines: seq<string>)
    ensures forall i :: 0 <= i < |Significant(lines)| ==> !IsSkipped(Significant(lines)[i])
  {
    forall i | 0 <= i < |Significant(lines)|
      ensures !IsSkipped(Significant(lines)[i])
    {
      SignificantMember(lines, Significant(lines)[i]);
    }
  }

  // ---------------------------------------------------------------------
  // The round trip
  // ---------------------------------------------------------------------

  lemma PairBasenames(source: string)
    requires TranslationPairPaths(source).Success?
    ensures var paths, stem := TranslationPairPaths(source).value, Basename(WithoutEnd(source, 3));
      Basename(source) == stem + MD && Basename(paths.zh) == stem + ZH_MD
  {
    assert source == WithoutEnd(source, 3) + MD;
    SplitSuffix(WithoutEnd(source, 3), MD, '/');
    SplitSuffix(WithoutEnd(source, 3), ZH_MD, '/');
  }

  function SignificantOfEach(texts: seq<string>): seq<string> {
    if texts == [] then [] else Significant(Split(texts[0], '\n')) + SignificantOfEach(texts[1..])
  }

  lemma {:induction false} SignificantEach(texts: seq<string>)
    ensures Significant(SplitEach(texts, '\n')) == SignificantOfEach(texts)
  {
    if texts != [] {
      SignificantAppend(Split(texts[0], '\n'), SplitEach(texts[1..], '\n'));
      SignificantEach(texts[1..]);
    }
  }

  lemma CommentSkipped(text: string)
    requires '\n' !in text && IsSkipped(text)
    ensures Significant(Split(text, '\n')) == []
  {
    SplitPlain(text, '\n');
    assert [text][..0] == [];
  }

  lemma LineSkipped(line: string, more: seq<string>)
    requires IsSkipped(line)
    ensures Significant([line] + more) == Significant(more)
  {
    SignificantAppend([line], more);
    assert [line][..0] == [];
  }

  /** A line break in the path puts the rest of the path on lines of its own. */
  lemma CommandSkipped(command: string, source: string)
    requires command != [] && command[0] == '#' && '\n' !in command
    ensures Significant(Split(command + source, '\n')) == Significant(Split(source, '\n')[1..])
  {
    var parts := Split(source, '\n');
    PrefixSplit(command, source);
    LineSkipped(command + parts[0], parts[1..]);
  }

  lemma {:induction false} PrefixSplit(prefix: string, s: string)
    requires '\n' !in prefix
    ensures var parts := Split(s, '\n'); Split(prefix + s, '\n') == [prefix + parts[0]] + parts[1..]
  {
    var parts := Split(s, '\n');
    if prefix == [] {
      assert prefix + s == s && prefix + parts[0] == parts[0];
    } else {
      var rest := prefix[1..];
      PrefixSplit(rest, s);
      assert (prefix + s)[1..] == rest + s;
      assert [prefix[0]] + (rest + parts[0]) == prefix + parts[0];
      assert ([rest + parts[0]] + parts[1..])[1..] == parts[1..];
    }
  }

  lemma SkippedText(text: string, more: seq<string>)
    requires '\n' !in text && IsSkipped(text)
    ensures SignificantOfEach([text] + more) == SignificantOfEach(more)
  {
    CommentSkipped(text);
    assert ([text] + more)[1..] == more;
  }

  /** The significant lines of a rendered record. */
  lemma RenderedLines(h: Heading, paths: PairPaths, record: Record)
    requires IsHeading(h)
    ensures Significant(Split(RenderTranslationPairingRecord(h, paths, record), '\n')) ==
      Significant(Split(paths.source, '\n')[1..])
      + Significant(Split(EntryLine(Basename(paths.source), record.sourceHash), '\n'))
      + Significant(Split(EntryLine(Basename(paths.zh), record.zhHash), '\n'))
  {
    LinesOfTexts(
      h, paths.source,
      EntryLine(Basename(paths.source), record.sourceHash), EntryLine(Basename(paths.zh), record.zhHash));
  }

  lemma LinesOfTexts(h: Heading, source: string, s: string, z: string)
    requires IsHeading(h)
    ensures Significant(Split(Join([h.first, h.second, h.third, h.command + source, s, z, ""], '\n'), '\n')) ==
      Significant(Split(source, '\n')[1..]) + Significant(Split(s, '\n')) + Significant(Split(z, '\n'))
  {
    var tail := [z, ""];
    var entries := [s] + tail;
    var commanded := [h.command + source] + entries;
    var texts := [h.first] + ([h.second] + ([h.third] + commanded));
    assert texts == [h.first, h.second, h.third, h.command + source, s, z, ""];
    SplitJoined(texts, '\n');
    SignificantEach(texts);
    SkippedText(h.first, [h.second] + ([h.third] + commanded));
    SkippedText(h.second, [h.third] + commanded);
    SkippedText(h.third, commanded);
    CommandSkipped(h.command, source);
    LastText(z);
  }

  lemma LastText(z: string)
    ensures SignificantOfEach([z, ""]) == Significant(Split(z, '\n'))
  {
    SkippedText("", []);
    assert [z] + [""] == [z, ""] && [""] + [] == [""];
  }

  lemma PlainEntry(key: string, hash: string)
    requires IsKey(key) && IsHash(hash) && '\n' !in EntryLine(key, hash)
    ensures Significant(Split(EntryLine(key, hash), '\n')) == [EntryLine(key, hash)]
  {
    SplitPlain(EntryLine(key, hash), '\n');
    assert [EntryLine(key, hash)][..0] == [];
  }

  /** The path's lines after its first are all empty or comments. */
  predicate RestIsSkipped(source: string) {
    forall i | 1 <= i < |Split(source, '\n')| :: IsSkipped(Split(source, '\n')[i])
  }

  predicate AllSkipped(lines: seq<string>) {
    forall i | 0 <= i < |lines| :: IsSkipped(lines[i])
  }

  lemma {:induction false} NoneSignificant(lines: seq<string>)
    ensures Significant(lines) == [] <==> AllSkipped(lines)
  {
    if lines != [] {
      var earlier, last := lines[..|lines| - 1], lines[|lines| - 1];
      NoneSignificant(earlier);
      if AllSkipped(earlier) && IsSkipped(last) {
        assert forall i | 0 <= i < |lines| :: lines[i] == if i < |earlier| then earlier[i] else last;
      }
    }
  }

  lemma KeysTogether(source: string)
    requires TranslationPairPaths(source).Success? && IsKey(Basename(source))
    ensures IsKey(Basename(TranslationPairPaths(source).value.zh))
  {
    PairBasenames(source);
    var stem := Basename(WithoutEnd(source, 3));
    assert forall c :: c in stem ==> c in stem + MD;
  }

  lemma {:induction false} LastPartIsSuffix(s: string, c: char)
    ensures EndsWith(s, Split(s, c)[|Split(s, c)| - 1])
  {
    if s != [] {
      LastPartIsSuffix(s[1..], c);
      var rest := Split(s[1..], c);
      var last := rest[|rest| - 1];
      assert s[|s| - |last|..] == s[1..][|s[1..]| - |last|..];
      if s[0] != c && |rest| == 1 {
        JoinSplit(s[1..], c);
        assert rest == [last];
        assert [s[0]] + last == s;
      }
    }
  }

  lemma {:induction false} LastBreak(s: string, c: char) returns (u: string, v: string)
    requires c in s
    ensures s == u + [c] + v && c !in v
  {
    if c in s[1..] {
      u, v := LastBreak(s[1..], c);
      u := [s[0]] + u;
    } else {
      u, v := [], s[1..];
    }
  }

  lemma EndsInLetter(source: string)
    requires EndsWith(source, MD)
    ensures source[|source| - 1] == 'd'
  {
    assert source[|source| - 3..][2] == 'd';
  }

  /** A line break in the file name itself would leave a last line that is
      neither empty nor free of `#`. */
  lemma NameHasNoBreak(source: string)
    requires EndsWith(source, MD) && IsKey(Basename(source)) && RestIsSkipped(source)
    ensures '\n' !in Basename(source)
  {
    var base := Basename(source);
    LastPartIsSuffix(source, '/');
    if '\n' in base {
      var u, v := LastBreak(base, '\n');
      var front := source[..|source| - |base|] + u;
      assert source == front + ['\n'] + v;
      SplitAt(front, '\n', v);
      SplitPlain(v, '\n');
      var parts := Split(source, '\n');
      assert parts[|parts| - 1] == v && |parts| > 1;
      EndsInLetter(source);
    }
  }

  lemma EntriesHaveNoBreak(content: string, line: string)
    requires line in Significant(Split(content, '\n'))
    ensures '\n' !in line
  {
    SplitParts(content, '\n');
    SignificantMember(Split(content, '\n'), line);
  }

  /** The entries of two plain keys, after no other significant line. */
  lemma EntriesAlone(source: string, key: string, zh: string, record: Record)
    requires IsKey(key) && IsKey(zh) && '\n' !in key && '\n' !in zh
    requires IsHash(record.sourceHash) && IsHash(record.zhHash)
    ensures var s, z := EntryLine(key, record.sourceHash), EntryLine(zh, record.zhHash);
      Significant(Split(source, '\n')[1..]) + Significant(Split(s, '\n')) + Significant(Split(z, '\n')) == [s, z] <==>
        RestIsSkipped(source)
    ensures var s, z := EntryLine(key, record.sourceHash), EntryLine(zh, record.zhHash);
      |Significant(Split(s, '\n'))| == |Significant(Split(z, '\n'))| == 1
  {
    PlainEntry(key, record.sourceHash);
    PlainEntry(zh, record.zhHash);
    var rest := Significant(Split(source, '\n')[1..]);
    RestMeaning(source);
    var s, z := EntryLine(key, record.sourceHash), EntryLine(zh, record.zhHash);
    assert |rest + [s] + [z]| == |rest| + 2;
    if rest == [] {
      assert rest + [s] + [z] == [s, z];
    }
  }

  lemma RestMeaning(source: string)
    ensures Significant(Split(source, '\n')[1..]) == [] <==> RestIsSkipped(source)
  {
    var parts := Split(source, '\n');
    NoneSignificant(parts[1..]);
    if AllSkipped(parts[1..]) {
      assert forall i :: 1 <= i < |parts| ==> parts[i] == parts[1..][i - 1];
    }
  }

  /** Reading back a rendered record gives the record exactly when both hashes
      are hashes, the file name can be a key, and a line break in the path's
      directories is followed by nothing that looks like an entry. */
  lemma RoundTrip(h: Heading, source: string, record: Record)
    requires IsHeading(h) && TranslationPairPaths(source).Success?
    ensures var paths := TranslationPairPaths(source).value;
      ParsedRecord(RenderTranslationPairingRecord(h, paths, record), paths) == Some(record) <==>
        IsHash(record.sourceHash) && IsHash(record.zhHash) && IsKey(Basename(source)) && RestIsSkipped(source)
  {
    var paths := TranslationPairPaths(source).value;
    var content := RenderTranslationPairingRecord(h, paths, record);
    PairBasenames(source);
    AcceptedRecords(content, paths, record);
    RenderedLines(h, paths, record);
    if IsHash(record.sourceHash) && IsHash(record.zhHash) && IsKey(Basename(source)) {
      KeysTogether(source);
      if RestIsSkipped(source) {
        NameHasNoBreak(source);
        ZhHasNoBreak(source);
        EntriesAlone(source, Basename(source), Basename(paths.zh), record);
      } else if ParsedRecord(content, paths) == Some(record) {
        AcceptedHasNoBreak(content, paths, record);
        EntriesAlone(source, Basename(source), Basename(paths.zh), record);
        RestMeaning(source);
      }
    }
  }

  lemma ZhHasNoBreak(source: string)
    requires TranslationPairPaths(source).Success? && '\n' !in Basename(source)
    ensures '\n' !in Basename(TranslationPairPaths(source).value.zh)
  {
    PairBasenames(source);
    var stem := Basename(WithoutEnd(source, 3));
    assert forall c :: c in stem ==> c in stem + MD;
  }

  lemma AcceptedHasNoBreak(content: string, paths: PairPaths, record: Record)
    requires Basename(paths.source) != Basename(paths.zh)
    requires ParsedRecord(content, paths) == Some(record)
    ensures '\n' !in Basename(paths.source) && '\n' !in Basename(paths.zh)
  {
    AcceptedRecords(content, paths, record);
    var s := EntryLine(Basename(paths.source), record.sourceHash);
    var z := EntryLine(Basename(paths.zh), record.zhHash);
    var significant := Significant(Split(content, '\n'));
    assert s in significant && z in significant;
    EntriesHaveNoBreak(content, s);
    EntriesHaveNoBreak(content, z);
    assert forall c :: c in Basename(paths.source) ==> c in s;
    assert forall c :: c in Basename(paths.zh) ==> c in z;
  }

  /** A plain file name in plain directories always comes back, save `.md`. */
  lemma PlainPathsRoundTrip(h: Heading, source: string, record: Record)
    requires IsHeading(h) && TranslationPairPaths(source).Success?
    requires '\n' !in source && ':' !in Basename(source) && '#' !in Basename(source)
    requires IsHash(record.sourceHash) && IsHash(record.zhHash)
    ensures var paths := TranslationPairPaths(source).value;
      ParsedRecord(RenderTranslationPairingRecord(h, paths, record), paths) == Some(record) <==> Basename(source) != MD
  {
    RoundTrip(h, source, record);
    PairBasenames(source);
    SplitPlain(source, '\n');
    var stem := Basename(WithoutEnd(source, 3));
    assert (stem + MD)[|stem|..] == MD;
    assert stem == [] ==> stem + MD == MD;
  }

  lemma BrokenPath()
    ensures TranslationPairPaths("\n/n.md").Success? && !RestIsSkipped("\n/n.md")
  {
    var rest := "/n.md";
    var broken := "\n/n.md";
    assert broken[1..] == rest && broken[0] == '\n';
    assert rest[2..] == MD;
    assert broken[3..] == MD;
    SplitPlain(rest, '\n');
    assert Split(broken, '\n') == [[]] + [rest];
    assert Split(broken, '\n')[1] == rest && !IsSkipped(rest);
  }

  /** A line break among the directories breaks it. */
  lemma DirectoryBreakUnreadable(h: Heading, record: Record)
    requires IsHeading(h)
    ensures var paths := TranslationPairPaths("\n/n.md");
      && paths.Success?
      && ParsedRecord(RenderTranslationPairingRecord(h, paths.value, record), paths.value) != Some(record)
  {
    BrokenPath();
    RoundTrip(h, "\n/n.md", record);
  }

  lemma BarePath()
    ensures TranslationPairPaths("x/.md").Success? && Basename("x/.md") == MD
  {
    var bare := "x/.md";
    assert bare[|bare| - 3..] == MD;
    assert bare == "x" + ['/'] + MD;
    SplitAt("x", '/', MD);
    SplitPlain("x", '/');
    SplitPlain(MD, '/');
  }

  /** So does the bare name `.md`. */
  lemma BareNameUnreadable(h: Heading, record: Record)
    requires IsHeading(h)
    ensures var paths := TranslationPairPaths("x/.md");
      && paths.Success?
      && ParsedRecord(RenderTranslationPairingRecord(h, paths.value, record), paths.value) != Some(record)
  {
    BarePath();
    RoundTrip(h, "x/.md", record);
  }

  // ---------------------------------------------------------------------
  // Paths and hashes as they are written
  // ---------------------------------------------------------------------

  /** The pair of `base.md`; of a Chinese document or any other path there is none. */
  lemma PairOfEnglish(base: string)
    ensures !EndsWith(base, ".zh") ==>
      TranslationPairPaths(base + ".md") == Success(PairPaths(base + ".md", base + ".zh.md", base + ".i18n.yaml"))
    ensures TranslationPairPaths(base + ".zh.md").Failure?
    ensures TranslationPairPathsFromMeta(base + ".i18n.yaml") == TranslationPairPaths(base + ".md")
  {
    var source, chinese, meta := base + ".md", base + ".zh.md", base + ".i18n.yaml";
    assert source[|base|..] == ".md" && WithoutEnd(source, 3) == base;
    assert chinese[|base|..] == ".zh.md";
    assert meta[|base|..] == ".i18n.yaml" && WithoutEnd(meta, 10) == base;
    if EndsWith(source, ".zh.md") {
      assert source[|source| - 6..] == ".zh.md" && base[|base| - 3..] == source[|source| - 6..][..3] == ".zh";
    }
  }

  lemma OnlyMarkdownPairs(path: string)
    ensures TranslationPairPaths(path).Success? ==> exists base: string :: path == base + ".md"
    ensures TranslationPairPathsFromMeta(path).Success? ==> exists base: string :: path == base + ".i18n.yaml"
  {
    if EndsWith(path, ".md") { assert path == WithoutEnd(path, 3) + ".md"; }
    if EndsWith(path, ".i18n.yaml") { assert path == WithoutEnd(path, 10) + ".i18n.yaml"; }
  }

  /** Forty lower-case hexadecimal digits. */
  lemma HashMeaning(s: string)
    ensures IsHash(s) <==> |s| == 40 && forall c :: c in s ==> c in "0123456789abcdef"
  {
    forall i | 0 <= i < |s|
      ensures s[i] in s && (s[i] in "0123456789abcdef" <==> '0' <= s[i] <= '9' || 'a' <= s[i] <= 'f')
    {
      HexDigit(s[i]);
    }
    if IsHash(s) {
      forall c | c in s
        ensures c in "0123456789abcdef"
      {
        var i :| 0 <= i < |s| && s[i] == c;
      }
    }
  }

  lemma HexDigit(c: char)
    ensures c in "0123456789abcdef" <==> '0' <= c <= '9' || 'a' <= c <= 'f'
  {
    var digits := "0123456789abcdef";
    if '0' <= c <= '9' { assert digits[c as int - '0' as int] == c; }
    if 'a' <= c <= 'f' { assert digits[10 + c as int - 'a' as int] == c; }
  }
}
