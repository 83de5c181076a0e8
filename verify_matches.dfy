/**
 * The duplicate verifier of verify_matches.py.
 *
 * It re-reads rendered match files line by line, recognises a pair of ids
 * on a line by one of three shapes (a Markdown table row, a bullet, or
 * "a - b"), groups the occurrences under the unordered id pair, and reports
 * every pair seen more than once. The directory walk is a sequence of files
 * in walk order, each a base name and its lines.
 */
module DuplicateVerifier {

  import opened Text

  datatype Option<T> = None | Some(value: T)

  datatype Result<T> = Success(value: T) | Failure(error: string)

  /** verify_matches.py:35-41. */
  datatype Occurrence = Occurrence(person1: string, person2: string, filename: string, lineNumber: nat, lineText: string)

  /** One scanned file: its base name and its lines without line terminators. */
  datatype SourceFile = SourceFile(name: string, lines: seq<string>)

  /** The three line shapes of verify_matches.py:16-32. */
  datatype Shape = TableRow | Bullet | Dashed

  /** The order in which the shapes are tried. */
  const Shapes: seq<Shape> := [TableRow, Bullet, Dashed]

  /** Characters no table cell may contain. */
  const CellExcluded: set<char> := {'|'}

  /** Characters a bullet token may not contain; one of them may separate the tokens. */
  const BulletExcluded: set<char> := {'-', '&', '|'}

  /** Characters a dashed token may not contain. */
  const DashedExcluded: set<char> := {'-', '|', '#'}

  // ---------------------------------------------------------------------
  // Line shapes
  // ---------------------------------------------------------------------

  /** The position of the first character of `cs` in s, or |s| when there is none. */
  function FirstOf(s: string, cs: set<char>): (r: nat)
    ensures r <= |s|
  {
    if s == [] then 0 else if s[0] in cs then 0 else 1 + FirstOf(s[1..], cs)
  }

  /** `FirstOf` stops at the first character of `cs` and at no other. */
  lemma {:induction false} FirstOfSpec(s: string, cs: set<char>)
    ensures forall i :: 0 <= i < FirstOf(s, cs) ==> s[i] !in cs
    ensures FirstOf(s, cs) < |s| ==> s[FirstOf(s, cs)] in cs
  {
    if s != [] && s[0] !in cs {
      FirstOfSpec(s[1..], cs);
      assert forall i :: 1 <= i < |s| ==> s[i] == s[1..][i - 1];
    }
  }

  /** The first character of `cs` in s is at p when it is there and nowhere before. */
  lemma FirstOfAt(s: string, cs: set<char>, p: nat)
    requires p < |s| && s[p] in cs && forall i :: 0 <= i < p ==> s[i] !in cs
    ensures FirstOf(s, cs) == p
  {
    FirstOfSpec(s, cs);
  }

  predicate NoneOf(s: string, cs: set<char>) {
    forall i :: 0 <= i < |s| ==> s[i] !in cs
  }

  /** The length of the leading whitespace run. */
  function LeadingSpaces(s: string): (r: nat)
    ensures r <= |s|
  {
    if s != [] && IsSpace(s[0]) then 1 + LeadingSpaces(s[1..]) else 0
  }

  /** `LeadingSpaces` counts exactly the whitespace before the first other character. */
  lemma {:induction false} LeadingSpacesSpec(s: string)
    ensures forall i :: 0 <= i < LeadingSpaces(s) ==> IsSpace(s[i])
    ensures LeadingSpaces(s) < |s| ==> !IsSpace(s[LeadingSpaces(s)])
  {
    if s != [] && IsSpace(s[0]) {
      LeadingSpacesSpec(s[1..]);
      assert forall i :: 1 <= i < |s| ==> s[i] == s[1..][i - 1];
    }
  }

  predicate IsDigit(c: char) {
    '0' <= c <= '9'
  }

  /** `\s*\d+\s*`: the optional table-number cell. */
  predicate IsIndexCell(d: string) {
    var t := Strip(d);
    t != [] && forall i :: 0 <= i < |t| ==> IsDigit(t[i])
  }

  /**
   * The first pattern, `^\s*\|\s*(?:\d+\s*\|\s*)?([^|]+?)\s*\|\s*([^|]+?)\s*\|\s*$`,
   * on a stripped line: "|A|B|" or "|n|A|B|" with n a number cell and A, B
   * non-empty. Returns the two name cells.
   */
  function TableRowCells(line: string): Option<(string, string)> {
    if |line| < 2 || line[0] != '|' || line[|line| - 1] != '|' then None
    else
      var inner := line[1..|line| - 1];
      var p := FirstOf(inner, CellExcluded);
      if p == |inner| then None
      else
        var rest := inner[p + 1..];
        var q := FirstOf(rest, CellExcluded);
        if q == |rest| then
          (if p > 0 && rest != [] then Some((inner[..p], rest)) else None)
        else if IsIndexCell(inner[..p]) && q > 0 && rest[q + 1..] != [] && NoneOf(rest[q + 1..], CellExcluded) then
          Some((rest[..q], rest[q + 1..]))
        else None
  }

  /** "vs" in any letter case at position w; `s` also matches U+017F under IGNORECASE. */
  predicate IsVs(t: string, w: int) {
    0 <= w && w + 2 <= |t| && (t[w] == 'v' || t[w] == 'V') && (t[w + 1] == 's' || t[w + 1] == 'S' || t[w + 1] == 'ſ')
  }

  /** The first "vs" at or after `from` with at least one character after it. */
  function FirstVs(t: string, from: nat): (r: Option<nat>)
    ensures r.Some? ==> from <= r.value && IsVs(t, r.value) && r.value + 2 < |t|
    decreases |t| - from
  {
    if from + 2 >= |t| then None
    else if IsVs(t, from) then Some(from)
    else FirstVs(t, from + 1)
  }

  /** `FirstVs` finds the first "vs" after `from` with text after it, and misses none. */
  lemma {:induction false} FirstVsSpec(t: string, from: nat)
    ensures forall w :: from <= w && (FirstVs(t, from).None? || w < FirstVs(t, from).value) && w + 2 < |t| ==> !IsVs(t, w)
    decreases |t| - from
  {
    if from + 2 < |t| && !IsVs(t, from) {
      FirstVsSpec(t, from + 1);
    }
  }

  /**
   * The second pattern, `^\s*[-*]\s+([^\-&|]+?)\s*(?:&|-|vs|\|)\s*([^\-&|]+?)\s*$`
   * (ignoring case), on a stripped line. After the bullet and at least one
   * space, the tokens are split by the one '-', '&' or '|' of the line, or,
   * when there is none, by the first "vs" the lazy first group can reach.
   * Returns the text around the separator.
   */
  function BulletCells(line: string): Option<(string, string)> {
    if line == [] || (line[0] != '-' && line[0] != '*') then None
    else
      var t := line[1..];
      if t == [] || !IsSpace(t[0]) then None
      else
        var p := FirstOf(t, BulletExcluded);
        if p < |t| then
          (if p >= 2 && p + 1 < |t| && NoneOf(t[p + 1..], BulletExcluded) then Some((t[1..p], t[p + 1..])) else None)
        else
          var j := LeadingSpaces(t);
          match FirstVs(t, j + 1)
          case Some(w) => Some((t[j..w], t[w + 2..]))
          case None =>
            // The leading `\s+` gives back one space to the first group.
            if j >= 2 && IsVs(t, j) && j + 2 < |t| then Some((t[j - 1..j], t[j + 2..])) else None
  }

  /**
   * The third pattern, `^\s*([^\-|#]+?)\s*-\s*([^\-|#]+?)\s*$`: exactly one
   * '-' and no '|' or '#', with text on both sides.
   */
  function DashedCells(line: string): Option<(string, string)> {
    var p := FirstOf(line, DashedExcluded);
    if 1 <= p && p + 1 < |line| && line[p] == '-' && NoneOf(line[p + 1..], DashedExcluded) then
      Some((line[..p], line[p + 1..]))
    else None
  }

  /** `pattern.match(stripped)`, giving the text of the two groups up to surrounding whitespace. */
  function Recognise(shape: Shape, line: string): Option<(string, string)> {
    match shape
    case TableRow => TableRowCells(line)
    case Bullet => BulletCells(line)
    case Dashed => DashedCells(line)
  }

  /** `normalize_id` (verify_matches.py:48-49). */
  function NormalizeId(raw: string): string {
    Strip(raw)
  }

  /** The ids a shape gives, when both are non-empty after trimming. */
  function Tokens(shape: Shape, line: string): Option<(string, string)> {
    match Recognise(shape, line)
    case None => None
    case Some(cells) =>
      var id1, id2 := NormalizeId(cells.0), NormalizeId(cells.1);
      if id1 == [] || id2 == [] then None else Some((id1, id2))
  }

  /** The ids of the first shape in `shapes` that gives two. */
  function FirstTokens(shapes: seq<Shape>, line: string): Option<(string, string)> {
    if shapes == [] then None
    else if Tokens(shapes[0], line).Some? then Tokens(shapes[0], line)
    else FirstTokens(shapes[1..], line)
  }

  /** The pair of ids a line carries, if any (verify_matches.py:55-78). */
  function ParseLine(line: string): Option<(string, string)> {
    var stripped := Strip(line);
    if stripped == [] then None else FirstTokens(Shapes, stripped)
  }

  // ---------------------------------------------------------------------
  // iter_pairs_in_file
  // ---------------------------------------------------------------------

  /** The occurrence a line gives, as a list of at most one. */
  function LineOccurrences(name: string, lineNumber: nat, line: string): seq<Occurrence> {
    match ParseLine(line)
    case None => []
    case Some(ids) => [Occurrence(ids.0, ids.1, name, lineNumber, Strip(line))]
  }

  /** The occurrences of the first n lines of a file. */
  function OccurrencesUpTo(f: SourceFile, n: nat): seq<Occurrence>
    requires n <= |f.lines|
  {
    if n == 0 then [] else OccurrencesUpTo(f, n - 1) + LineOccurrences(f.name, n, f.lines[n - 1])
  }

  function FileOccurrences(f: SourceFile): seq<Occurrence> {
    OccurrencesUpTo(f, |f.lines|)
  }

  /** verify_matches.py:52-78. */
  method IterPairsInFile(f: SourceFile) returns (occs: seq<Occurrence>)
    ensures occs == FileOccurrences(f)
  {
    occs := [];
    for lineno := 1 to |f.lines| + 1
      invariant occs == OccurrencesUpTo(f, lineno - 1)
    {
      var stripped := Strip(f.lines[lineno - 1]);
      ghost var before := occs;
      if stripped == [] {
        assert occs == OccurrencesUpTo(f, lineno - 1) + [];
        continue;
      }
      assert Strip(stripped) == stripped by {
        StripIdempotent(f.lines[lineno - 1]);
      }
      for k := 0 to |Shapes|
        invariant occs == before
        invariant FirstTokens(Shapes, stripped) == FirstTokens(Shapes[k..], stripped)
      {
        assert Shapes[k..][1..] == Shapes[k + 1..];
        var m := Recognise(Shapes[k], stripped);
        if m.None? {
          continue;
        }
        var id1 := NormalizeId(m.value.0);
        var id2 := NormalizeId(m.value.1);
        if id1 == [] || id2 == [] {
          continue;
        }
        occs := occs + [Occurrence(id1, id2, f.name, lineno, stripped)];
        break;
      }
      assert occs == OccurrencesUpTo(f, lineno - 1) + LineOccurrences(f.name, lineno, f.lines[lineno - 1]);
    }
  }

  // ---------------------------------------------------------------------
  // collect_pairs
  // ---------------------------------------------------------------------

  /** The unordered pair key `frozenset({person1, person2})`. */
  function Key(o: Occurrence): set<string> {
    {o.person1, o.person2}
  }

  type PairMap = map<set<string>, seq<Occurrence>>

  /** The file is scanned: not LICENSE.md in any case, and ending with the extension. */
  predicate Selected(name: string, ext: string) {
    Lower(name) != "license.md" && EndsWith(name, ext)
  }

  /** The occurrences of the selected files, in scan order. */
  function Scanned(files: seq<SourceFile>, ext: string): seq<Occurrence> {
    if files == [] then []
    else
      var last := files[|files| - 1];
      Scanned(files[..|files| - 1], ext) + (if Selected(last.name, ext) then FileOccurrences(last) else [])
  }

  /** `all_pairs.setdefault(key, []).append(occ)`. */
  function Append(m: PairMap, o: Occurrence): PairMap {
    m[Key(o) := (if Key(o) in m then m[Key(o)] else []) + [o]]
  }

  /** The map built by appending the occurrences one after another. */
  function Group(occs: seq<Occurrence>): PairMap {
    if occs == [] then map[] else Append(Group(occs[..|occs| - 1]), occs[|occs| - 1])
  }

  /** Scanning one more file appends that file's occurrences when it is selected. */
  lemma ScannedSnoc(files: seq<SourceFile>, ext: string, fi: nat)
    requires fi < |files|
    ensures Scanned(files[..fi + 1], ext) ==
      Scanned(files[..fi], ext) + (if Selected(files[fi].name, ext) then FileOccurrences(files[fi]) else [])
  {
    assert files[..fi + 1][..fi] == files[..fi];
  }

  /** Grouping one more occurrence appends it under its key. */
  lemma GroupSnoc(done: seq<Occurrence>, occs: seq<Occurrence>, oi: nat)
    requires oi < |occs|
    ensures Group(done + occs[..oi + 1]) == Append(Group(done + occs[..oi]), occs[oi])
  {
    assert (done + occs[..oi + 1])[..|done| + oi] == done + occs[..oi];
  }

  /** verify_matches.py:81-100. */
  method CollectPairs(files: seq<SourceFile>, ext: string) returns (allPairs: PairMap)
    ensures allPairs == Group(Scanned(files, ext))
  {
    allPairs := map[];
    for fi := 0 to |files|
      invariant allPairs == Group(Scanned(files[..fi], ext))
    {
      ScannedSnoc(files, ext, fi);
      ghost var scanned := Scanned(files[..fi], ext);
      assert scanned + [] == scanned;
      var name := files[fi].name;
      if Lower(name) == "license.md" {
        continue;
      }
      if !EndsWith(name, ext) {
        continue;
      }
      var occs := IterPairsInFile(files[fi]);
      assert occs[..0] == [];
      for oi := 0 to |occs|
        invariant allPairs == Group(scanned + occs[..oi])
      {
        var occ := occs[oi];
        GroupSnoc(scanned, occs, oi);
        var key := {occ.person1, occ.person2};
        allPairs := allPairs[key := (if key in allPairs then allPairs[key] else []) + [occ]];
      }
      assert occs[..|occs|] == occs;
    }
    assert files[..|files|] == files;
  }

  // ---------------------------------------------------------------------
  // find_duplicates, the report order and the exit status
  // ---------------------------------------------------------------------

  /** verify_matches.py:107-108. */
  function FindDuplicates(allPairs: PairMap): PairMap {
    map k | k in allPairs && |allPairs[k]| > 1 :: allPairs[k]
  }

  /** `sys.exit(1 if duplicates else 0)` (verify_matches.py:176). */
  function ExitStatus(duplicates: PairMap): int {
    if duplicates != map[] then 1 else 0
  }

  // ---------------------------------------------------------------------
  // Properties of the line parser
  // ---------------------------------------------------------------------

  /** No shape gives ids exactly when the search finds none. */
  lemma {:induction false} FirstTokensNone(shapes: seq<Shape>, line: string)
    ensures FirstTokens(shapes, line).None? <==> forall k :: 0 <= k < |shapes| ==> Tokens(shapes[k], line).None?
  {
    if shapes != [] {
      FirstTokensNone(shapes[1..], line);
      if Tokens(shapes[0], line).None? {
        if forall k :: 0 <= k < |shapes| - 1 ==> Tokens(shapes[1..][k], line).None? {
          forall k | 0 <= k < |shapes| ensures Tokens(shapes[k], line).None? {
            if k > 0 { assert shapes[k] == shapes[1..][k - 1]; }
          }
        } else {
          var k :| 0 <= k < |shapes| - 1 && Tokens(shapes[1..][k], line).Some?;
          assert shapes[k + 1] == shapes[1..][k];
        }
      }
    }
  }

  /** A result of the search is the ids of a shape all of whose predecessors give none. */
  lemma {:induction false} FirstTokensFirst(shapes: seq<Shape>, line: string)
    requires FirstTokens(shapes, line).Some?
    ensures exists k ::
      && 0 <= k < |shapes| && FirstTokens(shapes, line) == Tokens(shapes[k], line)
      && forall j :: 0 <= j < k ==> Tokens(shapes[j], line).None?
  {
    if Tokens(shapes[0], line).None? {
      FirstTokensFirst(shapes[1..], line);
      var k :| 0 <= k < |shapes| - 1 && FirstTokens(shapes[1..], line) == Tokens(shapes[1..][k], line)
        && forall j :: 0 <= j < k ==> Tokens(shapes[1..][j], line).None?;
      assert shapes[k + 1] == shapes[1..][k];
      forall j | 0 <= j < k + 1 ensures Tokens(shapes[j], line).None? {
        if j > 0 { assert shapes[j] == shapes[1..][j - 1]; }
      }
    } else {
      assert FirstTokens(shapes, line) == Tokens(shapes[0], line);
    }
  }

  /** The shapes are tried in order; the first giving two ids wins, the others fall through. */
  lemma FirstTokensSpec(shapes: seq<Shape>, line: string)
    ensures FirstTokens(shapes, line).None? <==> forall k :: 0 <= k < |shapes| ==> Tokens(shapes[k], line).None?
    ensures FirstTokens(shapes, line).Some? ==>
      exists k :: 0 <= k < |shapes| && FirstTokens(shapes, line) == Tokens(shapes[k], line)
        && forall j :: 0 <= j < k ==> Tokens(shapes[j], line).None?
  {
    FirstTokensNone(shapes, line);
    if FirstTokens(shapes, line).Some? {
      FirstTokensFirst(shapes, line);
    }
  }

  /** The ids a shape gives are non-empty and already trimmed. */
  lemma TokensTrimmed(shape: Shape, line: string)
    ensures Tokens(shape, line).Some? ==>
      var ids := Tokens(shape, line).value;
      ids.0 != [] && ids.1 != [] && Strip(ids.0) == ids.0 && Strip(ids.1) == ids.1
  {
    match Recognise(shape, line)
    case None =>
    case Some(cells) =>
      StripIdempotent(cells.0);
      StripIdempotent(cells.1);
  }

  /**
   * A blank line gives no pair. Otherwise the line gives a pair exactly when
   * one of the shapes does, and then it gives the pair of the first such
   * shape, both ids non-empty and trimmed.
   */
  lemma ParseLineSpec(line: string)
    ensures Strip(line) == [] ==> ParseLine(line).None?
    ensures Strip(line) != [] ==>
      (ParseLine(line).None? <==> forall k :: 0 <= k < |Shapes| ==> Tokens(Shapes[k], Strip(line)).None?)
    ensures ParseLine(line).Some? ==>
      exists k :: 0 <= k < |Shapes| && ParseLine(line) == Tokens(Shapes[k], Strip(line))
        && forall j :: 0 <= j < k ==> Tokens(Shapes[j], Strip(line)).None?
    ensures ParseLine(line).Some? ==>
      var ids := ParseLine(line).value;
      ids.0 != [] && ids.1 != [] && Strip(ids.0) == ids.0 && Strip(ids.1) == ids.1
  {
    var stripped := Strip(line);
    if stripped != [] {
      FirstTokensSpec(Shapes, stripped);
      if ParseLine(line).Some? {
        var k :| 0 <= k < |Shapes| && ParseLine(line) == Tokens(Shapes[k], stripped);
        TokensTrimmed(Shapes[k], stripped);
      }
    }
  }

  /** The occurrence a line gives, when it gives one, records the line. */
  predicate Records(f: SourceFile, o: Occurrence) {
    && o.filename == f.name
    && 1 <= o.lineNumber <= |f.lines|
    && ParseLine(f.lines[o.lineNumber - 1]) == Some((o.person1, o.person2))
    && o.lineText == Strip(f.lines[o.lineNumber - 1])
  }

  /** Every occurrence of the first n lines records its line, and the line numbers increase. */
  lemma {:induction false} OccurrencesUpToRecords(f: SourceFile, n: nat)
    requires n <= |f.lines|
    ensures forall i :: 0 <= i < |OccurrencesUpTo(f, n)| ==>
      Records(f, OccurrencesUpTo(f, n)[i]) && OccurrencesUpTo(f, n)[i].lineNumber <= n
    ensures forall i, j :: 0 <= i < j < |OccurrencesUpTo(f, n)| ==>
      OccurrencesUpTo(f, n)[i].lineNumber < OccurrencesUpTo(f, n)[j].lineNumber
  {
    if n > 0 {
      OccurrencesUpToRecords(f, n - 1);
      var prev := OccurrencesUpTo(f, n - 1);
      var line := LineOccurrences(f.name, n, f.lines[n - 1]);
      var occs := prev + line;
      assert OccurrencesUpTo(f, n) == occs;
      assert |line| <= 1;
      forall i | 0 <= i < |occs| ensures Records(f, occs[i]) && occs[i].lineNumber <= n {
        if i >= |prev| { assert occs[i] == line[0]; }
      }
      forall i, j | 0 <= i < j < |occs| ensures occs[i].lineNumber < occs[j].lineNumber {
        if j >= |prev| {
          assert occs[j] == line[0];
          assert occs[i] == prev[i];
        }
      }
    }
  }

  /** Every line of the first n that gives a pair has an occurrence. */
  lemma {:induction false} OccurrencesUpToComplete(f: SourceFile, n: nat)
    requires n <= |f.lines|
    ensures forall m :: 0 <= m < n && ParseLine(f.lines[m]).Some? ==>
      exists i :: 0 <= i < |OccurrencesUpTo(f, n)| && OccurrencesUpTo(f, n)[i].lineNumber == m + 1
  {
    if n > 0 {
      OccurrencesUpToComplete(f, n - 1);
      var prev := OccurrencesUpTo(f, n - 1);
      var line := LineOccurrences(f.name, n, f.lines[n - 1]);
      var occs := prev + line;
      assert OccurrencesUpTo(f, n) == occs;
      forall m | 0 <= m < n && ParseLine(f.lines[m]).Some?
        ensures exists i :: 0 <= i < |occs| && occs[i].lineNumber == m + 1
      {
        if m < n - 1 {
          var i :| 0 <= i < |prev| && prev[i].lineNumber == m + 1;
          assert occs[i] == prev[i];
        } else {
          assert occs[|prev|] == line[0];
        }
      }
    }
  }

  /**
   * The occurrences of a file: one per line that gives a pair, in line
   * order, each with the trimmed ids, the file name, the 1-based line
   * number and the stripped line.
   */
  lemma FileOccurrencesSpec(f: SourceFile)
    ensures var occs := FileOccurrences(f);
      && (forall i :: 0 <= i < |occs| ==> Records(f, occs[i]))
      && (forall i, j :: 0 <= i < j < |occs| ==> occs[i].lineNumber < occs[j].lineNumber)
      && (forall m :: 0 <= m < |f.lines| && ParseLine(f.lines[m]).Some? ==>
            exists i :: 0 <= i < |occs| && occs[i].lineNumber == m + 1)
  {
    OccurrencesUpToRecords(f, |f.lines|);
    OccurrencesUpToComplete(f, |f.lines|);
  }

  // ---------------------------------------------------------------------
  // Properties of collect_pairs and find_duplicates
  // ---------------------------------------------------------------------

  /** A collected occurrence comes from a selected file. */
  lemma {:induction false} ScannedFrom(files: seq<SourceFile>, ext: string, o: Occurrence)
    requires o in Scanned(files, ext)
    ensures exists i :: 0 <= i < |files| && Selected(files[i].name, ext) && o in FileOccurrences(files[i])
  {
    var init, last := files[..|files| - 1], files[|files| - 1];
    if o in Scanned(init, ext) {
      ScannedFrom(init, ext, o);
      var i :| 0 <= i < |init| && Selected(init[i].name, ext) && o in FileOccurrences(init[i]);
      assert files[i] == init[i];
    } else {
      assert Selected(last.name, ext) && o in FileOccurrences(last);
    }
  }

  /** Every occurrence of a selected file is collected. */
  lemma {:induction false} ScannedHas(files: seq<SourceFile>, ext: string, o: Occurrence, i: nat)
    requires i < |files| && Selected(files[i].name, ext) && o in FileOccurrences(files[i])
    ensures o in Scanned(files, ext)
  {
    var init := files[..|files| - 1];
    if i < |init| {
      assert init[i] == files[i];
      ScannedHas(init, ext, o, i);
    }
  }

  /** An occurrence is collected exactly when it comes from a selected file. */
  lemma ScannedSpec(files: seq<SourceFile>, ext: string)
    ensures forall o :: o in Scanned(files, ext) <==>
      exists i :: 0 <= i < |files| && Selected(files[i].name, ext) && o in FileOccurrences(files[i])
  {
    forall o ensures o in Scanned(files, ext) <==>
      exists i :: 0 <= i < |files| && Selected(files[i].name, ext) && o in FileOccurrences(files[i])
    {
      if o in Scanned(files, ext) {
        ScannedFrom(files, ext, o);
      }
      if exists i :: 0 <= i < |files| && Selected(files[i].name, ext) && o in FileOccurrences(files[i]) {
        var i :| 0 <= i < |files| && Selected(files[i].name, ext) && o in FileOccurrences(files[i]);
        ScannedHas(files, ext, o, i);
      }
    }
  }

  /** The occurrences under one key, in scan order. */
  function WithKey(occs: seq<Occurrence>, k: set<string>): seq<Occurrence> {
    if occs == [] then []
    else WithKey(occs[..|occs| - 1], k) + (if Key(occs[|occs| - 1]) == k then [occs[|occs| - 1]] else [])
  }

  /** The list under a key holds occurrences with that key only. */
  lemma {:induction false} WithKeyMembers(occs: seq<Occurrence>, k: set<string>)
    ensures forall o :: o in WithKey(occs, k) ==> o in occs && Key(o) == k
  {
    if occs != [] {
      WithKeyMembers(occs[..|occs| - 1], k);
      assert forall o :: o in occs[..|occs| - 1] ==> o in occs;
    }
  }

  /** A key has a list exactly when some occurrence has it. */
  lemma {:induction false} WithKeyNonEmpty(occs: seq<Occurrence>, k: set<string>)
    ensures WithKey(occs, k) != [] <==> exists i :: 0 <= i < |occs| && Key(occs[i]) == k
  {
    if occs != [] {
      var init := occs[..|occs| - 1];
      WithKeyNonEmpty(init, k);
      if WithKey(init, k) != [] {
        var i :| 0 <= i < |init| && Key(init[i]) == k;
        assert occs[i] == init[i];
      }
      if exists i :: 0 <= i < |occs| && Key(occs[i]) == k {
        var i :| 0 <= i < |occs| && Key(occs[i]) == k;
        if i < |init| { assert init[i] == occs[i]; }
      }
    }
  }

  /** A key's list is longer than one exactly when two occurrences have it. */
  lemma {:induction false} WithKeyTwice(occs: seq<Occurrence>, k: set<string>)
    ensures |WithKey(occs, k)| > 1 <==>
      exists i, j :: 0 <= i < j < |occs| && Key(occs[i]) == k && Key(occs[j]) == k
  {
    if occs != [] {
      var init, last := occs[..|occs| - 1], occs[|occs| - 1];
      WithKeyTwice(init, k);
      WithKeyNonEmpty(init, k);
      if |WithKey(occs, k)| > 1 {
        if Key(last) == k {
          var i :| 0 <= i < |init| && Key(init[i]) == k;
          assert occs[i] == init[i];
          assert Key(occs[i]) == k && Key(occs[|occs| - 1]) == k;
        } else {
          var i, j :| 0 <= i < j < |init| && Key(init[i]) == k && Key(init[j]) == k;
          assert occs[i] == init[i] && occs[j] == init[j];
        }
      }
      if exists i, j :: 0 <= i < j < |occs| && Key(occs[i]) == k && Key(occs[j]) == k {
        var i, j :| 0 <= i < j < |occs| && Key(occs[i]) == k && Key(occs[j]) == k;
        assert init[i] == occs[i];
        if j < |init| {
          assert init[j] == occs[j];
        }
      }
    }
  }

  /** collect_pairs maps each key to exactly its occurrences, in scan order. */
  lemma {:induction false} GroupSpec(occs: seq<Occurrence>)
    ensures forall k :: k in Group(occs) <==> WithKey(occs, k) != []
    ensures forall k :: k in Group(occs) ==> Group(occs)[k] == WithKey(occs, k)
  {
    if occs != [] {
      GroupSpec(occs[..|occs| - 1]);
    }
  }

  /** Every key holds the one or two ids of its occurrences. */
  predicate WellKeyed(d: PairMap) {
    forall k :: k in d ==> 1 <= |k| <= 2
  }

  lemma {:induction false} GroupWellKeyed(occs: seq<Occurrence>)
    ensures WellKeyed(Group(occs))
  {
    if occs != [] {
      GroupWellKeyed(occs[..|occs| - 1]);
      var o := occs[|occs| - 1];
      assert |Key(o)| == if o.person1 == o.person2 then 1 else 2 by {
        if o.person1 != o.person2 { assert Key(o) == {o.person1} + {o.person2}; }
      }
    }
  }

  /** Filtering the duplicates a second time changes nothing. */
  lemma FindDuplicatesIdempotent(all: PairMap)
    ensures FindDuplicates(FindDuplicates(all)) == FindDuplicates(all)
  {
  }

  /**
   * After collecting, a key is a duplicate exactly when two occurrences
   * share it, and its list is all its occurrences in scan order.
   */
  lemma DuplicatesSpec(occs: seq<Occurrence>)
    ensures forall k :: k in FindDuplicates(Group(occs)) <==>
      exists i, j :: 0 <= i < j < |occs| && Key(occs[i]) == k && Key(occs[j]) == k
    ensures forall k :: k in FindDuplicates(Group(occs)) ==> FindDuplicates(Group(occs))[k] == WithKey(occs, k)
  {
    GroupSpec(occs);
    forall k ensures k in FindDuplicates(Group(occs)) <==>
      exists i, j :: 0 <= i < j < |occs| && Key(occs[i]) == k && Key(occs[j]) == k
    {
      WithKeyTwice(occs, k);
    }
  }

  /** The exit status is 1 exactly when two collected occurrences share a key, and 0 otherwise. */
  lemma ExitStatusSpec(files: seq<SourceFile>, ext: string)
    ensures var occs := Scanned(files, ext);
      && (ExitStatus(FindDuplicates(Group(occs))) == 1 <==>
            exists i, j :: 0 <= i < j < |occs| && Key(occs[i]) == Key(occs[j]))
      && (ExitStatus(FindDuplicates(Group(occs))) == 0 <==>
            forall i, j :: 0 <= i < j < |occs| ==> Key(occs[i]) != Key(occs[j]))
  {
    DuplicatesExist(Scanned(files, ext));
  }

  /** Some key is a duplicate exactly when two occurrences share a key. */
  lemma DuplicatesExist(occs: seq<Occurrence>)
    ensures FindDuplicates(Group(occs)) != map[] <==> exists i, j :: 0 <= i < j < |occs| && Key(occs[i]) == Key(occs[j])
  {
    var d := FindDuplicates(Group(occs));
    DuplicatesSpec(occs);
    if exists i, j :: 0 <= i < j < |occs| && Key(occs[i]) == Key(occs[j]) {
      var i, j :| 0 <= i < j < |occs| && Key(occs[i]) == Key(occs[j]);
      assert Key(occs[i]) in d;
    }
    if d != map[] {
      var k :| k in d;
    }
  }

  // ---------------------------------------------------------------------
  // print_report: the order of the report and its entries
  // ---------------------------------------------------------------------

  /** The least id of a non-empty set of ids. */
  ghost function SomeLeast(k: set<string>): (m: string)
    requires k != {}
    ensures m in k && forall x :: x in k && x != m ==> Less(m, x)
  {
    LeastExists(k);
    var m :| m in k && forall x :: x in k && x != m ==> Less(m, x); m
  }

  lemma {:induction false} LeastExists(k: set<string>)
    requires k != {}
    ensures exists m :: m in k && forall x :: x in k && x != m ==> Less(m, x)
    decreases |k|
  {
    var a :| a in k;
    if k == {a} {
      assert forall x :: x in k && x != a ==> Less(a, x);
    } else {
      var rest := k - {a};
      LeastExists(rest);
      var m :| m in rest && forall x :: x in rest && x != m ==> Less(m, x);
      LessTotal(m, a);
      if Less(m, a) {
        forall x | x in k && x != m ensures Less(m, x) {
          if x != a { assert x in rest; }
        }
        assert m in k;
      } else {
        forall x | x in k && x != a ensures Less(a, x) {
          if x != m { assert x in rest; LessTransitive(a, m, x); }
        }
      }
    }
  }

  /** `sorted(list(pair_key))`: the ids of a key in increasing order. */
  ghost function SortedIds(k: set<string>): seq<string>
    decreases |k|
  {
    if k == {} then [] else var m := SomeLeast(k); [m] + SortedIds(k - {m})
  }

  /** The sorted ids are the key's ids, each once, in strictly increasing order. */
  lemma {:induction false} SortedIdsSpec(k: set<string>)
    ensures |SortedIds(k)| == |k| && forall x :: x in SortedIds(k) <==> x in k
    ensures forall i, j :: 0 <= i < j < |SortedIds(k)| ==> Less(SortedIds(k)[i], SortedIds(k)[j])
    decreases |k|
  {
    if k != {} {
      var m := SomeLeast(k);
      var rest := SortedIds(k - {m});
      SortedIdsSpec(k - {m});
      assert SortedIds(k) == [m] + rest;
      forall i, j | 0 <= i < j < |SortedIds(k)| ensures Less(SortedIds(k)[i], SortedIds(k)[j]) {
        if i == 0 {
          assert SortedIds(k)[j] == rest[j - 1] && rest[j - 1] in k - {m};
        } else {
          assert SortedIds(k)[i] == rest[i - 1] && SortedIds(k)[j] == rest[j - 1];
        }
      }
    }
  }

  /** Python's `<` on lists of strings: element by element, a proper prefix first. */
  predicate ListLess(a: seq<string>, b: seq<string>)
    decreases |a|
  {
    if a == [] then b != []
    else if b == [] then false
    else if a[0] != b[0] then Less(a[0], b[0])
    else ListLess(a[1..], b[1..])
  }

  lemma {:induction false} ListLessTransitive(a: seq<string>, b: seq<string>, c: seq<string>)
    requires ListLess(a, b) && ListLess(b, c)
    ensures ListLess(a, c)
    decreases |a|
  {
    if a != [] && b != [] && c != [] {
      if a[0] == b[0] && b[0] == c[0] {
        ListLessTransitive(a[1..], b[1..], c[1..]);
      } else if a[0] != b[0] && b[0] != c[0] {
        LessTransitive(a[0], b[0], c[0]);
        LessIrreflexive(a[0]);
      }
    }
  }

  lemma {:induction false} ListLessTotal(a: seq<string>, b: seq<string>)
    requires a != b
    ensures ListLess(a, b) || ListLess(b, a)
    decreases |a|
  {
    if a != [] && b != [] {
      if a[0] == b[0] {
        assert a == [a[0]] + a[1..] && b == [b[0]] + b[1..];
        ListLessTotal(a[1..], b[1..]);
      } else {
        LessTotal(a[0], b[0]);
      }
    }
  }

  /** Keys sort apart: different keys have different sorted id lists. */
  lemma SortedIdsInjective(k1: set<string>, k2: set<string>)
    requires SortedIds(k1) == SortedIds(k2)
    ensures k1 == k2
  {
    SortedIdsSpec(k1);
    SortedIdsSpec(k2);
    assert forall x :: x in k1 <==> x in k2;
  }

  /** The report shows key k1 before key k2. */
  ghost predicate Before(k1: set<string>, k2: set<string>) {
    ListLess(SortedIds(k1), SortedIds(k2))
  }

  lemma {:induction false} FirstKeyExists(keys: set<set<string>>)
    requires keys != {}
    ensures exists m :: m in keys && forall x :: x in keys && x != m ==> Before(m, x)
    decreases |keys|
  {
    var a :| a in keys;
    var rest := keys - {a};
    if rest == {} {
      assert forall x :: x in keys && x != a ==> x in rest;
    } else {
      FirstKeyExists(rest);
      var m :| m in rest && forall x :: x in rest && x != m ==> Before(m, x);
      if SortedIds(m) == SortedIds(a) {
        SortedIdsInjective(m, a);
      }
      ListLessTotal(SortedIds(m), SortedIds(a));
      if Before(m, a) {
        forall x | x in keys && x != m ensures Before(m, x) {
          if x != a { assert x in rest; }
        }
      } else {
        forall x | x in keys && x != a ensures Before(a, x) {
          if x != m {
            assert x in rest;
            ListLessTransitive(SortedIds(a), SortedIds(m), SortedIds(x));
          }
        }
      }
    }
  }

  ghost function FirstKey(keys: set<set<string>>): (m: set<string>)
    requires keys != {}
    ensures m in keys && forall x :: x in keys && x != m ==> Before(m, x)
  {
    FirstKeyExists(keys);
    var m :| m in keys && forall x :: x in keys && x != m ==> Before(m, x); m
  }

  /**
   * `sorted(duplicates.items(), key=lambda kv: sorted(list(kv[0])))`: every
   * key once, ordered by its sorted id list.
   */
  ghost function ReportOrder(keys: set<set<string>>): (r: seq<set<string>>)
    ensures |r| == |keys| && forall x :: x in r <==> x in keys
    ensures forall i, j :: 0 <= i < j < |r| ==> Before(r[i], r[j])
    decreases |keys|
  {
    if keys == {} then []
    else
      var m := FirstKey(keys);
      var rest := ReportOrder(keys - {m});
      assert forall j :: 0 <= j < |rest| ==> rest[j] in keys - {m};
      [m] + rest
  }

  /** One report block: `Pair: first ↔ second (seen N times)` and the occurrences below it. */
  datatype ReportEntry = ReportEntry(first: string, second: string, seen: nat, occurrences: seq<Occurrence>)

  /** The report block of a key as the source intends it: a one-id key shows its id on both sides. */
  ghost function Entry(d: PairMap, k: set<string>): ReportEntry
    requires k in d && k != {}
  {
    SortedIdsSpec(k);
    var ids := SortedIds(k);
    ReportEntry(ids[0], if |ids| >= 2 then ids[1] else ids[0], |d[k]|, d[k])
  }

  /** The report of the duplicates, with a one-id key shown as a self-pair. */
  ghost function Report(d: PairMap): seq<ReportEntry>
    requires WellKeyed(d)
  {
    var order := ReportOrder(d.Keys);
    seq(|order|, i requires 0 <= i < |order| => Entry(d, order[i]))
  }

  /**
   * The report has one block per duplicate key, in the report order; each
   * block names the key's ids, least first, with the number and the list of
   * its occurrences.
   */
  lemma ReportEntries(d: PairMap)
    requires WellKeyed(d)
    ensures |Report(d)| == |d|
    ensures forall i :: 0 <= i < |Report(d)| ==>
      var e, k := Report(d)[i], ReportOrder(d.Keys)[i];
      && k in d
      && {e.first, e.second} == k
      && (e.first == e.second || Less(e.first, e.second))
      && e.seen == |d[k]| && e.occurrences == d[k]
  {
    var order := ReportOrder(d.Keys);
    assert |d.Keys| == |d|;
    forall i | 0 <= i < |order| ensures order[i] in d {
      assert order[i] in d.Keys;
    }
    forall i | 0 <= i < |order| {
      EntryShowsKey(d, order[i]);
    }
  }

  /** A key's block shows exactly the key's ids, least first. */
  lemma EntryShowsKey(d: PairMap, k: set<string>)
    requires k in d && 1 <= |k| <= 2
    ensures {Entry(d, k).first, Entry(d, k).second} == k
    ensures Entry(d, k).first == Entry(d, k).second || Less(Entry(d, k).first, Entry(d, k).second)
  {
    SortedIdsSpec(k);
    var ids := SortedIds(k);
    if |k| == 1 {
      assert ids[0] in k;
      assert {ids[0], ids[0]} == k;
    } else {
      assert ids[0] in k && ids[1] in k && ids[0] != ids[1];
      assert {ids[0], ids[1]} == k by {
        forall x | x in k ensures x == ids[0] || x == ids[1] {
          var t :| 0 <= t < |ids| && ids[t] == x;
        }
      }
    }
  }

  /** The report's blocks appear in increasing order of the pair they show. */
  lemma ReportSorted(d: PairMap)
    requires WellKeyed(d)
    ensures forall i, j :: 0 <= i < j < |Report(d)| ==>
      ListLess([Report(d)[i].first, Report(d)[i].second], [Report(d)[j].first, Report(d)[j].second])
  {
    var order := ReportOrder(d.Keys);
    var r := Report(d);
    forall i, j | 0 <= i < j < |r|
      ensures ListLess([r[i].first, r[i].second], [r[j].first, r[j].second])
    {
      assert order[i] in d.Keys && order[j] in d.Keys;
      assert Before(order[i], order[j]);
      EntriesOrdered(d, order[i], order[j]);
    }
  }

  /** The blocks of two keys compare as the keys do in the report order. */
  lemma EntriesOrdered(d: PairMap, k1: set<string>, k2: set<string>)
    requires k1 in d && 1 <= |k1| <= 2 && k2 in d && 1 <= |k2| <= 2 && Before(k1, k2)
    ensures ListLess([Entry(d, k1).first, Entry(d, k1).second], [Entry(d, k2).first, Entry(d, k2).second])
  {
    SortedIdsSpec(k1);
    SortedIdsSpec(k2);
    ReportBlocksOrdered(SortedIds(k1), SortedIds(k2));
  }

  /** Two sorted id lists of one or two ids compare as their shown pairs do. */
  lemma ReportBlocksOrdered(a: seq<string>, b: seq<string>)
    requires 1 <= |a| <= 2 && 1 <= |b| <= 2 && ListLess(a, b)
    requires |a| == 2 ==> Less(a[0], a[1])
    requires |b| == 2 ==> Less(b[0], b[1])
    ensures ListLess([a[0], a[|a| - 1]], [b[0], b[|b| - 1]])
  {
    if a[0] == b[0] {
      if |a| == 1 {
        assert |b| == 2;
        LessIrreflexive(b[0]);
      } else {
        assert |b| == 2;
        LessIrreflexive(a[0]);
      }
    }
  }

  /**
   * The report as written indexes `ids[1]`, which fails with an IndexError
   * for a key of one id; the failure ends the program with status 1.
   */
  ghost function ReportAsWritten(d: PairMap, order: seq<set<string>>): Result<seq<ReportEntry>>
    requires forall i :: 0 <= i < |order| ==> order[i] in d
  {
    if order == [] then Success([])
    else
      var ids := SortedIds(order[0]);
      if |ids| < 2 then Failure("IndexError: list index out of range")
      else
        match ReportAsWritten(d, order[1..])
        case Failure(e) => Failure(e)
        case Success(rest) => Success([ReportEntry(ids[0], ids[1], |d[order[0]]|, d[order[0]])] + rest)
  }

  /** The report as written fails exactly on a key of one id, and otherwise gives the intended blocks. */
  lemma {:induction false} ReportAsWrittenSpec(d: PairMap, order: seq<set<string>>)
    requires forall i :: 0 <= i < |order| ==> order[i] in d && order[i] != {}
    ensures ReportAsWritten(d, order).Failure? <==> exists i :: 0 <= i < |order| && |order[i]| < 2
    ensures ReportAsWritten(d, order).Success? ==>
      ReportAsWritten(d, order).value == seq(|order|, i requires 0 <= i < |order| => Entry(d, order[i]))
  {
    if order != [] {
      ReportAsWrittenSpec(d, order[1..]);
      SortedIdsSpec(order[0]);
      if exists i :: 0 <= i < |order| && |order[i]| < 2 {
        var i :| 0 <= i < |order| && |order[i]| < 2;
        if i > 0 { assert order[1..][i - 1] == order[i]; }
      }
      if exists i :: 0 <= i < |order| - 1 && |order[1..][i]| < 2 {
        var i :| 0 <= i < |order| - 1 && |order[1..][i]| < 2;
        assert order[i + 1] == order[1..][i];
      }
    }
  }

  /** The process exit status as written: 1 after the report fails, else the duplicate rule. */
  ghost function ExitStatusAsWritten(d: PairMap): int
    requires WellKeyed(d)
  {
    if ReportAsWritten(d, ReportOrder(d.Keys)).Failure? then 1 else ExitStatus(d)
  }

  /**
   * With duplicates from collect_pairs, the report as written fails exactly
   * when a key holds one id, succeeds with the intended report otherwise,
   * and the exit status is the duplicate rule either way.
   */
  lemma ReportAsWrittenVsReport(d: PairMap)
    requires WellKeyed(d)
    ensures ReportAsWritten(d, ReportOrder(d.Keys)).Failure? <==> exists k :: k in d && |k| == 1
    ensures ReportAsWritten(d, ReportOrder(d.Keys)).Success? ==>
      ReportAsWritten(d, ReportOrder(d.Keys)).value == Report(d)
    ensures ExitStatusAsWritten(d) == ExitStatus(d)
  {
    var order := ReportOrder(d.Keys);
    ReportOrderKeys(d);
    ReportAsWrittenSpec(d, order);
    OneIdKeyListed(d, order);
  }

  /** Every key of the report order is a non-empty key of the map. */
  lemma ReportOrderKeys(d: PairMap)
    requires WellKeyed(d)
    ensures forall i :: 0 <= i < |ReportOrder(d.Keys)| ==> ReportOrder(d.Keys)[i] in d && ReportOrder(d.Keys)[i] != {}
  {
    var order := ReportOrder(d.Keys);
    forall i | 0 <= i < |order| ensures order[i] in d && order[i] != {} {
      assert order[i] in d.Keys;
    }
  }

  /** A listing of non-empty keys has a key of fewer than two ids exactly when some key has one id. */
  lemma OneIdListed(keys: set<set<string>>, order: seq<set<string>>)
    requires forall x :: x in order <==> x in keys
    requires forall k :: k in keys ==> k != {}
    ensures (exists k :: k in keys && |k| == 1) <==> exists i :: 0 <= i < |order| && |order[i]| < 2
  {
    if exists k :: k in keys && |k| == 1 {
      var k :| k in keys && |k| == 1;
      var i :| 0 <= i < |order| && order[i] == k;
      assert |order[i]| < 2;
    }
    if exists i :: 0 <= i < |order| && |order[i]| < 2 {
      var i :| 0 <= i < |order| && |order[i]| < 2;
      assert order[i] in order;
      assert |order[i]| == 1;
    }
  }

  /** A one-id key of the map is a key of fewer than two ids in a listing of its keys, and back. */
  lemma OneIdKeyListed(d: PairMap, order: seq<set<string>>)
    requires WellKeyed(d)
    requires forall x :: x in order <==> x in d.Keys
    ensures (exists k :: k in d && |k| == 1) <==> exists i :: 0 <= i < |order| && |order[i]| < 2
  {
    forall k | k in d.Keys ensures k != {} {
      assert |k| >= 1;
    }
    OneIdListed(d.Keys, order);
    if exists k :: k in d.Keys && |k| == 1 {
      var k :| k in d.Keys && |k| == 1;
      assert k in d;
    }
  }

  // ---------------------------------------------------------------------
  // Rendered match files read back
  // ---------------------------------------------------------------------

  /** The decimal numeral of n, as f-strings print it. */
  function Digits(n: nat): (r: string)
    ensures r != [] && forall i :: 0 <= i < |r| ==> IsDigit(r[i])
  {
    if n < 10 then [(48 + n) as char] else Digits(n / 10) + [(48 + n % 10) as char]
  }

  /** The table row output_utils.py writes for table n and two names. */
  function RowLine(n: string, a: string, b: string): string {
    "| " + n + " | " + a + " | " + b + " |"
  }

  /**
   * The lines of a rendered round file: the heading (followed by the blank
   * line its own newline makes), the table header, the alignment row, and
   * one row per pair, numbered from 1.
   */
  function RenderedRound(roundIndex: nat, names: seq<(string, string)>): seq<string> {
    ["# Round " + Digits(roundIndex), "", "| Table # | Name 1 | Name 2 |", "|--------:|--------|--------|"]
    + seq(|names|, i requires 0 <= i < |names| => RowLine(Digits(i + 1), names[i].0, names[i].1))
  }

  lemma {:induction false} FirstOfAppend(x: string, y: string, cs: set<char>)
    requires NoneOf(x, cs)
    ensures FirstOf(x + y, cs) == |x| + FirstOf(y, cs)
  {
    if x != [] {
      assert (x + y)[1..] == x[1..] + y;
      assert (x + y)[0] == x[0];
      FirstOfAppend(x[1..], y, cs);
    } else {
      assert x + y == y;
    }
  }

  lemma DigitsUnpadded(n: string)
    requires n != [] && forall i :: 0 <= i < |n| ==> IsDigit(n[i])
    ensures Strip(n) == n && NoneOf(n, CellExcluded)
  {
    StripUnpadded(n);
  }

  /** On a non-blank stripped line, the three shapes are tried in their order. */
  lemma ParseLineInOrder(line: string)
    requires Strip(line) == line && line != []
    ensures ParseLine(line) ==
      if Tokens(TableRow, line).Some? then Tokens(TableRow, line)
      else if Tokens(Bullet, line).Some? then Tokens(Bullet, line)
      else Tokens(Dashed, line)
  {
    assert ParseLine(line) == FirstTokens(Shapes, line);
    assert Shapes[1..] == [Bullet, Dashed] && [Bullet, Dashed][1..] == [Dashed] && [Dashed][1..] == [];
    assert FirstTokens([Dashed], line) == if Tokens(Dashed, line).Some? then Tokens(Dashed, line) else FirstTokens([], line);
    assert FirstTokens([Bullet, Dashed], line) ==
      if Tokens(Bullet, line).Some? then Tokens(Bullet, line) else FirstTokens([Dashed], line);
  }

  /** A stripped line with an index cell and two name cells gives the two name cells. */
  lemma TableRowWithIndex(line: string, p: nat, q: nat)
    requires 2 <= |line| && line[0] == '|' && line[|line| - 1] == '|'
    requires p < |line| - 2 && FirstOf(line[1..|line| - 1], CellExcluded) == p
    requires 0 < q < |line| - p - 4 && FirstOf(line[p + 2..|line| - 1], CellExcluded) == q
    requires IsIndexCell(line[1..p + 1]) && NoneOf(line[p + q + 3..|line| - 1], CellExcluded)
    ensures TableRowCells(line) == Some((line[p + 2..p + q + 2], line[p + q + 3..|line| - 1]))
  {
    var inner := line[1..|line| - 1];
    var rest := inner[p + 1..];
    SliceTail(line, 1, |line| - 1, p + 1);
    SliceOfSlice(line, 1, |line| - 1, 0, p);
    SliceOfSlice(line, p + 2, |line| - 1, 0, q);
    SliceTail(line, p + 2, |line| - 1, q + 1);
  }

  lemma SliceOfSlice(s: string, i: nat, j: nat, k: nat, l: nat)
    requires i <= j <= |s| && k <= l <= j - i
    ensures s[i..j][k..l] == s[i + k..i + l]
  {
    var t := s[i..j];
    assert |t[k..l]| == |s[i + k..i + l]|;
    forall x | 0 <= x < l - k ensures t[k..l][x] == s[i + k..i + l][x] {
      assert t[k..l][x] == t[k + x] == s[i + k + x];
    }
  }

  lemma SliceTail(s: string, i: nat, j: nat, k: nat)
    requires i <= j <= |s| && k <= j - i
    ensures s[i..j][k..] == s[i + k..j]
  {
    SliceOfSlice(s, i, j, k, j - i);
  }

  /** The parts of a rendered table row: where its pipes are, and what lies between them. */
  lemma RowLineLayout(n: string, a: string, b: string)
    requires n != [] && forall i :: 0 <= i < |n| ==> IsDigit(n[i])
    requires NoneOf(a, CellExcluded) && NoneOf(b, CellExcluded)
    ensures var line, p, q := RowLine(n, a, b), |n| + 2, |a| + 2;
      && 2 <= |line| && line[0] == '|' && line[|line| - 1] == '|'
      && p < |line| - 2 && FirstOf(line[1..|line| - 1], CellExcluded) == p
      && 0 < q < |line| - p - 4 && FirstOf(line[p + 2..|line| - 1], CellExcluded) == q
      && line[1..p + 1] == " " + n + " "
      && line[p + 2..p + q + 2] == " " + a + " "
      && line[p + q + 3..|line| - 1] == " " + b + " "
  {
    var line := RowLine(n, a, b);
    DigitsUnpadded(n);
    var x1, x2, x3 := " " + n + " ", " " + a + " ", " " + b + " ";
    assert line == "|" + x1 + "|" + x2 + "|" + x3 + "|";
    RowCellsLayout(x1, x2, x3);
  }

  /** In "|x1|x2|x3|" with no bar inside the xs, the bars sit after x1 and after x2. */
  lemma RowCellsLayout(x1: string, x2: string, x3: string)
    requires NoneOf(x1, CellExcluded) && NoneOf(x2, CellExcluded)
    ensures var line, p, q := "|" + x1 + "|" + x2 + "|" + x3 + "|", |x1|, |x2|;
      && FirstOf(line[1..|line| - 1], CellExcluded) == p
      && FirstOf(line[p + 2..|line| - 1], CellExcluded) == q
      && line[1..p + 1] == x1 && line[p + 2..p + q + 2] == x2 && line[p + q + 3..|line| - 1] == x3
  {
    var line := "|" + x1 + "|" + x2 + "|" + x3 + "|";
    var inner := line[1..|line| - 1];
    assert inner == x1 + ("|" + (x2 + ("|" + x3)));
    FirstOfAppend(x1, "|" + (x2 + ("|" + x3)), CellExcluded);
    assert line[|x1| + 2..|line| - 1] == x2 + ("|" + x3);
    FirstOfAppend(x2, "|" + x3, CellExcluded);
  }

  /** The cells of a rendered table row are its two names with the spaces around them. */
  lemma RowLineCells(n: string, a: string, b: string)
    requires n != [] && forall i :: 0 <= i < |n| ==> IsDigit(n[i])
    requires NoneOf(a, CellExcluded) && NoneOf(b, CellExcluded)
    ensures TableRowCells(RowLine(n, a, b)) == Some((" " + a + " ", " " + b + " "))
  {
    var line, p, q := RowLine(n, a, b), |n| + 2, |a| + 2;
    RowLineLayout(n, a, b);
    DigitsUnpadded(n);
    assert AllSpace(" ");
    StripPadded(" ", n, " ");
    assert NoneOf(" " + b + " ", CellExcluded);
    TableRowWithIndex(line, p, q);
  }

  /** A rendered table row gives back its two names, trimmed, by the first shape. */
  lemma RowLineParses(n: string, a: string, b: string)
    requires n != [] && forall i :: 0 <= i < |n| ==> IsDigit(n[i])
    requires NoneOf(a, CellExcluded) && NoneOf(b, CellExcluded)
    requires Strip(a) != [] && Strip(b) != []
    ensures Strip(RowLine(n, a, b)) == RowLine(n, a, b)
    ensures ParseLine(RowLine(n, a, b)) == Some((Strip(a), Strip(b)))
  {
    var line := RowLine(n, a, b);
    StripUnpadded(line);
    RowLineCells(n, a, b);
    assert AllSpace(" ");
    StripPadded(" ", a, " ");
    StripPadded(" ", b, " ");
    assert Tokens(TableRow, line) == Some((Strip(a), Strip(b)));
    ParseLineInOrder(line);
  }

  /** The heading, the blank line, the table header and the alignment row give no pair. */
  lemma HeaderLinesIgnored(roundIndex: nat)
    ensures forall i :: 0 <= i < 4 ==> ParseLine(RenderedRound(roundIndex, [])[i]).None?
  {
    var lines := RenderedRound(roundIndex, []);
    assert lines == ["# Round " + Digits(roundIndex), "", "| Table # | Name 1 | Name 2 |", "|--------:|--------|--------|"];
    forall i | 0 <= i < 4 ensures ParseLine(lines[i]).None? {
      if i == 0 {
        HeadingIgnored(roundIndex);
      } else if i == 1 {
        assert Strip(lines[1]) == [];
      } else if i == 2 {
        TableHeaderIgnored();
      } else {
        AlignmentRowIgnored();
      }
    }
  }

  lemma TableHeaderIgnored()
    ensures ParseLine("| Table # | Name 1 | Name 2 |").None?
  {
    var line := "| Table # | Name 1 | Name 2 |";
    assert forall i :: 1 <= i <= 9 ==> line[i] != '|' && !IsDigit(line[i]);
    assert forall i :: 11 <= i < 19 ==> line[i] != '|';
    HeaderRowIgnored(line, 9, 8);
  }

  lemma AlignmentRowIgnored()
    ensures ParseLine("|--------:|--------|--------|").None?
  {
    var line := "|--------:|--------|--------|";
    assert forall i :: 1 <= i <= 9 ==> line[i] != '|' && !IsDigit(line[i]);
    assert forall i :: 11 <= i < 19 ==> line[i] != '|';
    HeaderRowIgnored(line, 9, 8);
  }

  /** The "# Round n" heading gives no pair: its '#' rules out every shape. */
  lemma HeadingIgnored(roundIndex: nat)
    ensures ParseLine("# Round " + Digits(roundIndex)).None?
  {
    var heading := "# Round " + Digits(roundIndex);
    StripUnpadded(heading);
    assert FirstOf(heading, DashedExcluded) == 0;
    ParseLineInOrder(heading);
  }

  /**
   * A stripped row of the rendered header shape: the first cell (of width
   * p) holds no digit, so the four-pipe line is not a table row, and the
   * leading '|' rules out the other two shapes.
   */
  lemma HeaderRowIgnored(line: string, p: nat, q: nat)
    requires 2 <= |line| && line[0] == '|' && line[|line| - 1] == '|'
    requires p + q + 2 < |line| - 1
    requires line[p + 1] == '|' && line[p + q + 2] == '|'
    requires forall i :: 1 <= i <= p ==> line[i] != '|' && !IsDigit(line[i])
    requires forall i :: p + 2 <= i < p + q + 2 ==> line[i] != '|'
    ensures ParseLine(line).None?
  {
    StripUnpadded(line);
    HeaderRowNotTable(line, p, q);
    assert FirstOf(line, DashedExcluded) == 0;
    ParseLineInOrder(line);
  }

  lemma HeaderRowNotTable(line: string, p: nat, q: nat)
    requires 2 <= |line| && line[0] == '|' && line[|line| - 1] == '|'
    requires p + q + 2 < |line| - 1
    requires line[p + 1] == '|' && line[p + q + 2] == '|'
    requires forall i :: 1 <= i <= p ==> line[i] != '|' && !IsDigit(line[i])
    requires forall i :: p + 2 <= i < p + q + 2 ==> line[i] != '|'
    ensures TableRowCells(line).None?
  {
    var inner := line[1..|line| - 1];
    assert FirstOf(inner, CellExcluded) == p by {
      assert inner[p] == '|';
      assert forall i :: 0 <= i < p ==> inner[i] == line[i + 1];
      FirstOfAt(inner, CellExcluded, p);
    }
    var rest := inner[p + 1..];
    assert FirstOf(rest, CellExcluded) == q by {
      assert rest[q] == '|';
      assert forall i :: 0 <= i < q ==> rest[i] == line[p + 2 + i];
      FirstOfAt(rest, CellExcluded, q);
    }
    var d := inner[..p];
    assert !IsIndexCell(d) by {
      StripSlice(d);
      var i, j :| 0 <= i <= j <= |d| && Strip(d) == d[i..j];
      if i < j {
        assert Strip(d)[0] == d[i] == line[i + 1];
      }
    }
  }

  /** The first n lines of a rendered round give one occurrence per row among them, in order. */
  /** The names a rendered file can carry: no '|' and not blank. */
  predicate Printable(names: seq<(string, string)>) {
    forall i :: 0 <= i < |names| ==>
      NoneOf(names[i].0, CellExcluded) && NoneOf(names[i].1, CellExcluded) && Strip(names[i].0) != [] && Strip(names[i].1) != []
  }

  /** The occurrence the row of table i + 1 gives when read back. */
  function RowOccurrence(name: string, names: seq<(string, string)>, i: nat): Occurrence
    requires i < |names|
  {
    Occurrence(Strip(names[i].0), Strip(names[i].1), name, i + 5, RowLine(Digits(i + 1), names[i].0, names[i].1))
  }

  /** The occurrences of the first k rows. */
  function RowOccurrences(name: string, names: seq<(string, string)>, k: nat): seq<Occurrence>
    requires k <= |names|
  {
    seq(k, i requires 0 <= i < k => RowOccurrence(name, names, i))
  }

  /** Line n of a rendered file gives nothing for the four header lines and the row's occurrence after them. */
  lemma RenderedLine(f: SourceFile, roundIndex: nat, names: seq<(string, string)>, n: nat)
    requires f.lines == RenderedRound(roundIndex, names) && Printable(names)
    requires 1 <= n <= |f.lines|
    ensures LineOccurrences(f.name, n, f.lines[n - 1]) ==
      if n <= 4 then [] else [RowOccurrence(f.name, names, n - 5)]
  {
    if n <= 4 {
      HeaderLinesIgnored(roundIndex);
      assert f.lines[n - 1] == RenderedRound(roundIndex, [])[n - 1];
    } else {
      var i := n - 5;
      assert f.lines[n - 1] == RowLine(Digits(i + 1), names[i].0, names[i].1);
      RowLineParses(Digits(i + 1), names[i].0, names[i].1);
    }
  }

  lemma RowOccurrencesSnoc(name: string, names: seq<(string, string)>, k: nat)
    requires k < |names|
    ensures RowOccurrences(name, names, k + 1) == RowOccurrences(name, names, k) + [RowOccurrence(name, names, k)]
  {
  }

  /** A file whose lines give nothing for four lines and then one row each reads back as those rows. */
  lemma {:induction false} RenderedPrefix(f: SourceFile, names: seq<(string, string)>, n: nat)
    requires |f.lines| == |names| + 4
    requires forall m :: 0 <= m < |f.lines| ==>
      LineOccurrences(f.name, m + 1, f.lines[m]) == if m < 4 then [] else [RowOccurrence(f.name, names, m - 4)]
    requires n <= |f.lines|
    ensures OccurrencesUpTo(f, n) == RowOccurrences(f.name, names, if n < 4 then 0 else n - 4)
  {
    if n > 0 {
      RenderedPrefix(f, names, n - 1);
      if n > 4 {
        RowOccurrencesSnoc(f.name, names, n - 5);
      }
    }
  }

  /**
   * Reading back a rendered round file gives one occurrence per table row,
   * with the two names trimmed, the 1-based line number of the row and the
   * row itself: the verifier sees exactly the pairs that were written.
   */
  lemma RenderedRoundReadsBack(name: string, roundIndex: nat, names: seq<(string, string)>)
    requires Printable(names)
    ensures FileOccurrences(SourceFile(name, RenderedRound(roundIndex, names))) ==
      seq(|names|, i requires 0 <= i < |names| =>
        Occurrence(Strip(names[i].0), Strip(names[i].1), name, i + 5, RowLine(Digits(i + 1), names[i].0, names[i].1)))
  {
    var f := SourceFile(name, RenderedRound(roundIndex, names));
    RenderedLines(f, roundIndex, names);
    RenderedPrefix(f, names, |f.lines|);
    RowOccurrencesAll(name, names);
  }

  lemma RowOccurrencesAll(name: string, names: seq<(string, string)>)
    ensures RowOccurrences(name, names, |names|) == seq(|names|, i requires 0 <= i < |names| =>
      Occurrence(Strip(names[i].0), Strip(names[i].1), name, i + 5, RowLine(Digits(i + 1), names[i].0, names[i].1)))
  {
  }

  /** `RenderedLine` for every line of a rendered file. */
  lemma RenderedLines(f: SourceFile, roundIndex: nat, names: seq<(string, string)>)
    requires f.lines == RenderedRound(roundIndex, names) && Printable(names)
    ensures |f.lines| == |names| + 4
    ensures forall m :: 0 <= m < |f.lines| ==>
      LineOccurrences(f.name, m + 1, f.lines[m]) == if m < 4 then [] else [RowOccurrence(f.name, names, m - 4)]
  {
    forall m | 0 <= m < |f.lines|
      ensures LineOccurrences(f.name, m + 1, f.lines[m]) == if m < 4 then [] else [RowOccurrence(f.name, names, m - 4)]
    {
      RenderedLine(f, roundIndex, names, m + 1);
    }
  }

  /** A stripped bullet line with one separator gives the text on either side of it. */
  lemma BulletWithSeparator(line: string, p: nat)
    requires 2 <= |line| && (line[0] == '-' || line[0] == '*') && IsSpace(line[1])
    requires FirstOf(line[1..], BulletExcluded) == p && 2 <= p && p + 2 < |line|
    requires NoneOf(line[p + 2..], BulletExcluded)
    ensures BulletCells(line) == Some((line[2..p + 1], line[p + 2..]))
  {
    var t := line[1..];
    assert t[1..p] == line[2..p + 1] && t[p + 1..] == line[p + 2..];
  }

  /** A bullet line "- x & y" gives the pair (x, y) by the second shape. */
  lemma AmpersandBulletParses(x: string, y: string)
    requires x != [] && Strip(x) == x && NoneOf(x, BulletExcluded)
    requires y != [] && Strip(y) == y && NoneOf(y, BulletExcluded)
    ensures ParseLine("- " + x + " & " + y) == Some((x, y))
  {
    var line := "- " + x + " & " + y;
    StripSlice(x);
    StripSlice(y);
    StripUnpadded(line);
    AmpersandBulletCells(x, y);
    assert x + " " == [] + x + " " && " " + y == " " + y + [];
    assert AllSpace([]) && AllSpace(" ");
    StripPadded([], x, " ");
    StripPadded(" ", y, []);
    assert Tokens(Bullet, line) == Some((x, y));
    ParseLineInOrder(line);
  }

  /** The cells of "- x & y" are "x " and " y". */
  lemma AmpersandBulletCells(x: string, y: string)
    requires x != [] && NoneOf(x, BulletExcluded) && NoneOf(y, BulletExcluded)
    ensures BulletCells("- " + x + " & " + y) == Some((x + " ", " " + y))
  {
    var line := "- " + x + " & " + y;
    var t := line[1..];
    assert t == (" " + x + " ") + ("&" + (" " + y));
    assert NoneOf(" " + x + " ", BulletExcluded);
    FirstOfAppend(" " + x + " ", "&" + (" " + y), BulletExcluded);
    var p := |x| + 2;
    assert line[p + 2..] == " " + y;
    assert NoneOf(" " + y, BulletExcluded);
    BulletWithSeparator(line, p);
    assert line[2..p + 1] == x + " ";
  }

  lemma {:induction false} NoneOfFirstOf(s: string, cs: set<char>)
    requires NoneOf(s, cs)
    ensures FirstOf(s, cs) == |s|
  {
    if s != [] {
      assert NoneOf(s[1..], cs);
      NoneOfFirstOf(s[1..], cs);
    }
  }

  /** The first "vs" at or after `from` is at w when it is there and nowhere between. */
  lemma {:induction false} FirstVsAt(t: string, from: nat, w: nat)
    requires from <= w && IsVs(t, w) && w + 2 < |t|
    requires forall v :: from <= v < w ==> !IsVs(t, v)
    ensures FirstVs(t, from) == Some(w)
    decreases w - from
  {
    if from < w {
      FirstVsAt(t, from + 1, w);
    }
  }

  /** A stripped bullet line without '-', '&' or '|' after the bullet is split at its first "vs". */
  lemma BulletWithVs(line: string, j: nat, w: nat)
    requires 2 <= |line| && (line[0] == '-' || line[0] == '*') && IsSpace(line[1])
    requires FirstOf(line[1..], BulletExcluded) == |line| - 1
    requires LeadingSpaces(line[1..]) == j && FirstVs(line[1..], j + 1) == Some(w)
    ensures BulletCells(line) == Some((line[1..][j..w], line[1..][w + 2..]))
  {
  }

  /** The cells of "- x vs y" are x and y with the spaces next to "vs". */
  lemma VsBulletCells(x: string, y: string)
    requires x != [] && !IsSpace(x[0]) && NoneOf(x, BulletExcluded) && forall v :: !IsVs(x, v)
    requires NoneOf(y, BulletExcluded)
    ensures BulletCells("- " + x + " vs " + y) == Some((x + " ", " " + y))
  {
    var line := "- " + x + " vs " + y;
    var t := line[1..];
    assert t == " " + x + " vs " + y;
    assert NoneOf(t, BulletExcluded);
    NoneOfFirstOf(t, BulletExcluded);
    assert LeadingSpaces(t) == 1 by {
      assert t[1..][0] == x[0];
    }
    var w := |x| + 2;
    forall v | 2 <= v < w ensures !IsVs(t, v) {
      if v < |x| {
        assert t[v] == x[v - 1] && t[v + 1] == x[v];
        assert !IsVs(x, v - 1);
      } else if v == |x| {
        assert t[v + 1] == ' ';
      } else {
        assert t[v] == ' ';
      }
    }
    assert t[w] == 'v' && t[w + 1] == 's';
    FirstVsAt(t, 2, w);
    BulletWithVs(line, 1, w);
    assert t[1..w] == x + " " && t[w + 2..] == " " + y;
  }

  /** A bullet line "- x vs y" gives the pair (x, y) when x holds no "vs" of its own. */
  lemma VsBulletParses(x: string, y: string)
    requires x != [] && Strip(x) == x && NoneOf(x, BulletExcluded) && forall v :: !IsVs(x, v)
    requires y != [] && Strip(y) == y && NoneOf(y, BulletExcluded)
    ensures ParseLine("- " + x + " vs " + y) == Some((x, y))
  {
    var line := "- " + x + " vs " + y;
    StripSlice(x);
    StripSlice(y);
    StripUnpadded(line);
    VsBulletCells(x, y);
    assert x + " " == [] + x + " " && " " + y == " " + y + [];
    assert AllSpace([]) && AllSpace(" ");
    StripPadded([], x, " ");
    StripPadded(" ", y, []);
    assert Tokens(TableRow, line).None?;
    assert Tokens(Bullet, line) == Some((x, y));
    ParseLineInOrder(line);
  }

  /** A plain line "x - y" gives the pair (x, y) by the third shape. */
  lemma DashedParses(x: string, y: string)
    requires x != [] && Strip(x) == x && NoneOf(x, DashedExcluded) && x[0] != '*'
    requires y != [] && Strip(y) == y && NoneOf(y, DashedExcluded)
    ensures ParseLine(x + " - " + y) == Some((x, y))
  {
    var line := x + " - " + y;
    StripSlice(x);
    StripSlice(y);
    StripUnpadded(line);
    DashedLayout(x, y);
    assert AllSpace([]) && AllSpace(" ");
    StripPadded([], x, " ");
    StripPadded(" ", y, []);
    assert Tokens(Dashed, line) == Some((x, y));
    DashedNotEarlier(x, y);
    ParseLineInOrder(line);
  }

  /** The fallback shape splits "x - y" at its one dash. */
  lemma DashedLayout(x: string, y: string)
    requires NoneOf(x, DashedExcluded) && NoneOf(y, DashedExcluded)
    ensures DashedCells(x + " - " + y) == Some((x + " ", " " + y))
  {
    var line := x + " - " + y;
    assert line == (x + " ") + ("-" + (" " + y));
    assert NoneOf(x + " ", DashedExcluded);
    FirstOfAppend(x + " ", "-" + (" " + y), DashedExcluded);
    var p := |x| + 1;
    assert line[p + 1..] == " " + y && NoneOf(" " + y, DashedExcluded);
    assert line[..p] == x + " ";
  }

  /** A line starting with neither '|', '-' nor '*' is no table row and no bullet. */
  lemma DashedNotEarlier(x: string, y: string)
    requires x != [] && x[0] != '|' && x[0] != '-' && x[0] != '*'
    ensures Tokens(TableRow, x + " - " + y).None? && Tokens(Bullet, x + " - " + y).None?
  {
    assert (x + " - " + y)[0] == x[0];
  }

  /** A file of one line gives that line's occurrence, numbered 1. */
  lemma OneLineFile(name: string, line: string)
    ensures FileOccurrences(SourceFile(name, [line])) == LineOccurrences(name, 1, line)
  {
    var f := SourceFile(name, [line]);
    assert OccurrencesUpTo(f, 1) == OccurrencesUpTo(f, 0) + LineOccurrences(name, 1, line);
  }

  /** Two selected files are read one after the other. */
  lemma TwoFilesScanned(f1: SourceFile, f2: SourceFile, ext: string)
    requires Selected(f1.name, ext) && Selected(f2.name, ext)
    ensures Scanned([f1, f2], ext) == FileOccurrences(f1) + FileOccurrences(f2)
  {
    assert [f1, f2][..1] == [f1] && [f1][..0] == [];
    assert Scanned([f1], ext) == [] + FileOccurrences(f1) == FileOccurrences(f1);
  }

  /** Two selected files with one occurrence each, under the same key, give one duplicate. */
  lemma TwoFilesOneDuplicate(f1: SourceFile, f2: SourceFile, ext: string, o1: Occurrence, o2: Occurrence)
    requires Selected(f1.name, ext) && Selected(f2.name, ext)
    requires FileOccurrences(f1) == [o1] && FileOccurrences(f2) == [o2] && Key(o1) == Key(o2)
    ensures FindDuplicates(Group(Scanned([f1, f2], ext))) == map[Key(o1) := [o1, o2]]
  {
    TwoFilesScanned(f1, f2, ext);
    assert Scanned([f1, f2], ext) == [o1, o2];
    assert [o1, o2][..1] == [o1] && [o1][..0] == [];
    assert Group([o1]) == Append(map[], o1) == map[Key(o1) := [o1]];
    assert Group([o1, o2]) == Append(Group([o1]), o2);
    assert Group([o1, o2]) == map[Key(o1) := [o1, o2]];
  }

  /** A file holding one rendered table row gives that row's pair. */
  lemma RowFile(name: string, a: string, b: string)
    requires a != [] && Strip(a) == a && NoneOf(a, CellExcluded)
    requires b != [] && Strip(b) == b && NoneOf(b, CellExcluded)
    ensures FileOccurrences(SourceFile(name, [RowLine("1", a, b)])) == [Occurrence(a, b, name, 1, RowLine("1", a, b))]
  {
    assert forall i :: 0 <= i < |"1"| ==> IsDigit("1"[i]);
    RowLineParses("1", a, b);
    OneLineFile(name, RowLine("1", a, b));
  }

  /** A file holding one "- x & y" bullet gives the pair (x, y). */
  lemma BulletFile(name: string, x: string, y: string)
    requires x != [] && Strip(x) == x && NoneOf(x, BulletExcluded)
    requires y != [] && Strip(y) == y && NoneOf(y, BulletExcluded)
    ensures FileOccurrences(SourceFile(name, ["- " + x + " & " + y])) == [Occurrence(x, y, name, 1, "- " + x + " & " + y)]
  {
    AmpersandBulletParses(x, y);
    StripSlice(y);
    StripUnpadded("- " + x + " & " + y);
    OneLineFile(name, "- " + x + " & " + y);
  }

  lemma RoundFilesSelected()
    ensures Selected("round_1.md", ".md") && Selected("round_2.md", ".md") && Selected("notes.md", ".md")
  {
    assert Lower("round_1.md")[0] == 'r' && Lower("round_2.md")[0] == 'r';
    assert "round_1.md"[7..] == ".md" && "round_2.md"[7..] == ".md" && "notes.md"[5..] == ".md";
  }

  /**
   * The same two people written as a table row in one file and, swapped, as
   * a bullet in another share one key: the pair is reported once, with both
   * occurrences in scan order.
   */
  lemma SwappedPairsShareKey(a: string, b: string)
    requires a != [] && Strip(a) == a && NoneOf(a, BulletExcluded)
    requires b != [] && Strip(b) == b && NoneOf(b, BulletExcluded)
    ensures var f1 := SourceFile("round_1.md", [RowLine("1", a, b)]);
      var f2 := SourceFile("notes.md", ["- " + b + " & " + a]);
      FindDuplicates(Group(Scanned([f1, f2], ".md"))) ==
        map[{a, b} := [Occurrence(a, b, "round_1.md", 1, RowLine("1", a, b)), Occurrence(b, a, "notes.md", 1, "- " + b + " & " + a)]]
  {
    var f1 := SourceFile("round_1.md", [RowLine("1", a, b)]);
    var f2 := SourceFile("notes.md", ["- " + b + " & " + a]);
    var o1 := Occurrence(a, b, "round_1.md", 1, RowLine("1", a, b));
    var o2 := Occurrence(b, a, "notes.md", 1, "- " + b + " & " + a);
    RoundFilesSelected();
    assert NoneOf(a, CellExcluded) && NoneOf(b, CellExcluded);
    RowFile(f1.name, a, b);
    BulletFile(f2.name, b, a);
    assert Key(o2) == Key(o1) == {a, b};
    TwoFilesOneDuplicate(f1, f2, ".md", o1, o2);
  }

  /**
   * The same id on both sides of a row, written in two files: the key holds
   * one id, the duplicate is found and the exit status is 1, but the report
   * as written fails on `ids[1]`; the intended report shows the id on both
   * sides with the two occurrences.
   */
  lemma SelfPairBreaksReport(a: string)
    requires a != [] && Strip(a) == a && NoneOf(a, CellExcluded)
    ensures var f1 := SourceFile("round_1.md", [RowLine("1", a, a)]);
      var f2 := SourceFile("round_2.md", [RowLine("1", a, a)]);
      var d := FindDuplicates(Group(Scanned([f1, f2], ".md")));
      && d == map[{a} := [Occurrence(a, a, "round_1.md", 1, RowLine("1", a, a)), Occurrence(a, a, "round_2.md", 1, RowLine("1", a, a))]]
      && ExitStatus(d) == 1
      && ReportAsWritten(d, ReportOrder(d.Keys)).Failure?
      && Report(d) == [ReportEntry(a, a, 2, d[{a}])]
  {
    var f1 := SourceFile("round_1.md", [RowLine("1", a, a)]);
    var f2 := SourceFile("round_2.md", [RowLine("1", a, a)]);
    var o1 := Occurrence(a, a, "round_1.md", 1, RowLine("1", a, a));
    var o2 := Occurrence(a, a, "round_2.md", 1, RowLine("1", a, a));
    RoundFilesSelected();
    RowFile(f1.name, a, a);
    RowFile(f2.name, a, a);
    assert Key(o1) == {a} == Key(o2);
    TwoFilesOneDuplicate(f1, f2, ".md", o1, o2);
    SelfPairReport(a, [o1, o2]);
  }

  /** A duplicate map with one single-id key breaks the report as written but not the intended one. */
  lemma SelfPairReport(a: string, occs: seq<Occurrence>)
    requires |occs| == 2
    ensures var d := map[{a} := occs];
      && ExitStatus(d) == 1
      && ReportAsWritten(d, ReportOrder(d.Keys)).Failure?
      && Report(d) == [ReportEntry(a, a, 2, occs)]
  {
    var d := map[{a} := occs];
    assert |{a}| == 1;
    assert WellKeyed(d);
    ReportAsWrittenVsReport(d);
    assert d.Keys == {{a}};
    ReportEntries(d);
    var order := ReportOrder(d.Keys);
    assert |order| == 1 && order[0] in d.Keys;
    assert order == [{a}];
    EntryShowsKey(d, {a});
  }
}
