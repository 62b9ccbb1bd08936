/**
 * The tolerant LAMMPS data-file scanner of dbi/core/lammps_parser.py, over the file's lines:
 * box bounds from `xlo xhi` / `ylo yhi` / `zlo zhi` lines, the `Atoms` header, the block up to
 * the next single-word header, the `id ... x y z` lines and the stable sort by id.
 */
module LammpsParser {
  import opened Wrappers
  import opened Text
  import opened Model
  import opened Scan

  /** `HEADER_KEYS`: the section names of a data file. */
  const HeaderKeys: set<string> := {
    "atoms", "bonds", "angles", "dihedrals", "impropers",
    "velocities", "masses",
    "pair coeffs", "bond coeffs", "angle coeffs", "dihedral coeffs", "improper coeffs",
    "ellipsoids", "lines", "triangles",
    "atom types", "bond types", "angle types", "dihedral types", "improper types",
    "groups", "fixes"
  }

  /** The keys made of one word; no other key can end the atoms block. */
  const SingleWordKeys: set<string> := {
    "atoms", "bonds", "angles", "dihedrals", "impropers", "velocities", "masses",
    "ellipsoids", "lines", "triangles", "groups", "fixes"
  }

  /** Python's `float(tok)` and `int(tok)`, each none where Python raises `ValueError`. */
  datatype Numbers = Numbers(toFloat: string -> Option<real>, toInt: string -> Option<int>)

  datatype ParseError = MissingBoxBounds | MissingAtomsSection | NoAtomsParsed

  datatype AtomRecord = AtomRecord(id: int, x: real, y: real, z: real)

  /** `s.split("#", 1)[0].strip().split()`: the tokens of a line without its comment. */
  function Tokens(s: string): seq<string>
  {
    Split(Strip(BeforeHash(s)))
  }

  // ---------- box ----------

  /** What a line offers as a bound pair: its lowercased last two tokens joined by a space and
      its first two tokens as numbers, when it has at least four tokens and both parse. */
  function LineBounds(raw: string, num: Numbers): (r: Option<(string, (real, real))>)
    ensures r.Some? <==> var t := Tokens(raw);
      |t| >= 4 && num.toFloat(t[0]).Some? && num.toFloat(t[1]).Some?
    ensures r.Some? ==> var t := Tokens(raw); var n := |t|;
      && r.value.0 == Lower(t[n - 2] + " " + t[n - 1])
      && num.toFloat(t[0]) == Some(r.value.1.0) && num.toFloat(t[1]) == Some(r.value.1.1)
  {
    var toks := Tokens(raw);
    if |toks| < 4 then None
    else
      var tag := Lower(toks[|toks| - 2] + " " + toks[|toks| - 1]);
      match (num.toFloat(toks[0]), num.toFloat(toks[1]))
      case (Some(a), Some(b)) => Some((tag, (a, b)))
      case _ => None
  }

  /** The pair a line gives for `tag` ("xlo xhi", "ylo yhi" or "zlo zhi"). */
  function BoundsFor(raw: string, tag: string, num: Numbers): Option<(real, real)>
  {
    var lb := LineBounds(raw, num);
    if lb.Some? && lb.value.0 == tag then Some(lb.value.1) else None
  }

  /** The pair of the last line that gives one for `tag`: a later line overrides an earlier one. */
  function LastBounds(lines: seq<string>, tag: string, num: Numbers): Option<(real, real)>
  {
    LastSome(lines, raw => BoundsFor(raw, tag, num))
  }

  /** Which lines give a pair for `tag`, and the override rule, in terms of the lines. */
  lemma LastBoundsLines(lines: seq<string>, tag: string, num: Numbers)
    ensures var r := LastBounds(lines, tag, num);
      && (r.None? <==> forall i :: 0 <= i < |lines| ==> BoundsFor(lines[i], tag, num).None?)
      && (r.Some? ==> exists i :: 0 <= i < |lines| && BoundsFor(lines[i], tag, num) == r
                         && (forall j :: i < j < |lines| ==> BoundsFor(lines[j], tag, num).None?))
  {
    var f := raw => BoundsFor(raw, tag, num);
    LastSomeSpec(lines, f);
    assert forall i :: 0 <= i < |lines| ==> f(lines[i]) == BoundsFor(lines[i], tag, num);
  }

  /** `_parse_box`: x and y bounds are required, z bounds default to (0, 0). */
  function BoxFrom(lines: seq<string>, num: Numbers): (r: Result<Box, ParseError>)
    ensures r.Failure? <==> LastBounds(lines, "xlo xhi", num).None? || LastBounds(lines, "ylo yhi", num).None?
    ensures r.Failure? ==> r.error == MissingBoxBounds
    ensures r.Success? ==>
      && Some((r.value.xlo, r.value.xhi)) == LastBounds(lines, "xlo xhi", num)
      && Some((r.value.ylo, r.value.yhi)) == LastBounds(lines, "ylo yhi", num)
      && (r.value.zlo, r.value.zhi) == match LastBounds(lines, "zlo zhi", num) case None => (0.0, 0.0) case Some(z) => z
  {
    var x := LastBounds(lines, "xlo xhi", num);
    var y := LastBounds(lines, "ylo yhi", num);
    var z := LastBounds(lines, "zlo zhi", num);
    if x.None? || y.None? then Failure(MissingBoxBounds)
    else
      var zb := if z.None? then (0.0, 0.0) else z.value;
      Success(Box(x.value.0, x.value.1, y.value.0, y.value.1, zb.0, zb.1))
  }

  /** The box fails exactly when no line gives x bounds or no line gives y bounds. */
  lemma BoxFromFails(lines: seq<string>, num: Numbers)
    ensures BoxFrom(lines, num).Failure? <==>
      (forall i :: 0 <= i < |lines| ==> BoundsFor(lines[i], "xlo xhi", num).None?)
      || (forall i :: 0 <= i < |lines| ==> BoundsFor(lines[i], "ylo yhi", num).None?)
  {
    LastBoundsLines(lines, "xlo xhi", num);
    LastBoundsLines(lines, "ylo yhi", num);
  }

  lemma LastBoundsStep(lines: seq<string>, i: nat, tag: string, num: Numbers)
    requires i < |lines|
    ensures LastBounds(lines[..i + 1], tag, num) ==
      if BoundsFor(lines[i], tag, num).Some? then BoundsFor(lines[i], tag, num) else LastBounds(lines[..i], tag, num)
  {
    assert lines[..i + 1][..i] == lines[..i];
  }

  /** `_parse_box`: one pass over the lines, each qualifying line overwriting its bound pair. */
  method ParseBox(lines: seq<string>, num: Numbers) returns (r: Result<Box, ParseError>)
    ensures r == BoxFrom(lines, num)
  {
    var x, y, z: Option<(real, real)> := None, None, None;
    var i := 0;
    while i < |lines|
      invariant 0 <= i <= |lines|
      invariant x == LastBounds(lines[..i], "xlo xhi", num)
      invariant y == LastBounds(lines[..i], "ylo yhi", num)
      invariant z == LastBounds(lines[..i], "zlo zhi", num)
    {
      LastBoundsStep(lines, i, "xlo xhi", num);
      LastBoundsStep(lines, i, "ylo yhi", num);
      LastBoundsStep(lines, i, "zlo zhi", num);
      var lb := LineBounds(lines[i], num);
      if lb.Some? {
        var (tag, ab) := lb.value;
        if tag == "xlo xhi" { x := Some(ab); }
        if tag == "ylo yhi" { y := Some(ab); }
        if tag == "zlo zhi" { z := Some(ab); }
      }
      i := i + 1;
    }
    assert lines[..i] == lines;
    if x.None? || y.None? {
      return Failure(MissingBoxBounds);
    }
    if z.None? {
      z := Some((0.0, 0.0));
    }
    r := Success(Box(x.value.0, x.value.1, y.value.0, y.value.1, z.value.0, z.value.1));
  }

  // ---------- section header ----------

  /** The comment-stripped, stripped, lowercased line starts with `key`. */
  predicate IsSectionHeader(raw: string, key: string)
  {
    StartsWith(Lower(Strip(BeforeHash(raw))), key)
  }

  /** The header test for `key` as a value. */
  function HeaderTest(key: string): string -> bool
  {
    raw => IsSectionHeader(raw, key)
  }

  /** Index of the first header line for `key`. */
  function FirstSection(lines: seq<string>, key: string): (r: Option<nat>)
    ensures r.Some? ==> && r.value < |lines| && IsSectionHeader(lines[r.value], key)
                        && (forall j :: 0 <= j < r.value ==> !IsSectionHeader(lines[j], key))
    ensures r.None? ==> forall j :: 0 <= j < |lines| ==> !IsSectionHeader(lines[j], key)
  {
    var p := HeaderTest(key);
    var k := FirstFrom(lines, 0, p);
    assert forall j :: 0 <= j < |lines| ==> p(lines[j]) == IsSectionHeader(lines[j], key);
    if k < |lines| then Some(k) else None
  }

  /** `_find_section`: the key is lowercased, then the lines are scanned until one matches. */
  method FindSection(lines: seq<string>, key: string) returns (r: Option<nat>)
    ensures r == FirstSection(lines, Lower(key))
  {
    var k := Lower(key);
    ghost var p := HeaderTest(k);
    var i := 0;
    while i < |lines|
      invariant 0 <= i <= |lines|
      invariant forall j :: 0 <= j < i ==> !p(lines[j])
    {
      if IsSectionHeader(lines[i], k) {
        FirstFromUnique(lines, 0, p, i);
        return Some(i);
      }
      i := i + 1;
    }
    FirstFromUnique(lines, 0, p, |lines|);
    r := None;
  }

  // ---------- atoms block ----------

  predicate IsBlank(line: string)
  {
    Strip(line) == ""
  }

  /** `fw`: the first word of the stripped line's text before `#`, lowercased. */
  function HeadWord(line: string): string
  {
    FirstWord(Lower(Strip(BeforeHash(Strip(line)))))
  }

  /** A non-blank line whose head word is a header key other than `atoms` ends the block. */
  predicate EndsBlock(line: string)
  {
    !IsBlank(line) && HeadWord(line) in HeaderKeys && HeadWord(line) != "atoms"
  }

  predicate NotBlank(line: string)
  {
    !IsBlank(line)
  }

  /** The atoms block after the header at `start`: blank lines skipped, then every line up to
      but excluding the next ending line, or to the end of the file. */
  function AtomsBlock(lines: seq<string>, start: nat): seq<string>
    requires start < |lines|
  {
    var b := FirstFrom(lines, start + 1, NotBlank);
    lines[b..FirstFrom(lines, b, EndsBlock)]
  }

  /** The block is a run of consecutive lines after the leading blanks, none of which ends it,
      and it stops only at an ending line or at the end of the file. */
  lemma AtomsBlockShape(lines: seq<string>, start: nat)
    requires start < |lines|
    ensures var block := AtomsBlock(lines, start);
      exists b, e :: && start < b <= e <= |lines| && block == lines[b..e]
                     && (forall j :: start < j < b ==> IsBlank(lines[j]))
                     && (b < |lines| ==> !IsBlank(lines[b]))
                     && (forall k :: 0 <= k < |block| ==> !EndsBlock(block[k]))
                     && (e < |lines| ==> EndsBlock(lines[e]))
  {
    SkipThenTake(lines, start + 1, NotBlank, EndsBlock);
  }

  /** The first loop of `_iter_atoms_block`: step over blank lines. */
  method SkipBlanks(lines: seq<string>, from: nat) returns (i: nat)
    requires from <= |lines|
    ensures i == FirstFrom(lines, from, NotBlank)
  {
    i := from;
    while i < |lines| && IsBlank(lines[i])
      invariant from <= i <= |lines|
      invariant FirstFrom(lines, i, NotBlank) == FirstFrom(lines, from, NotBlank)
    {
      i := i + 1;
    }
  }

  /** `_iter_atoms_block`: skip blanks after the header, then collect lines until an ending one. */
  method IterAtomsBlock(lines: seq<string>, start: nat) returns (out: seq<string>)
    requires start < |lines|
    ensures out == AtomsBlock(lines, start)
  {
    var b := SkipBlanks(lines, start + 1);
    out := TakeUntil(lines, b, EndsBlock);
  }

  /** A word without whitespace that is a header key is one of the single-word keys. */
  lemma OneWordKeys(w: string)
    requires NoSpace(w)
    ensures w in HeaderKeys ==> w in SingleWordKeys
  {
    assert "pair coeffs"[4] == "atom types"[4] == "bond coeffs"[4] == "bond types"[4] == ' ';
    assert "angle coeffs"[5] == "angle types"[5] == ' ';
    assert "dihedral coeffs"[8] == "dihedral types"[8] == "improper coeffs"[8] == "improper types"[8] == ' ';
  }

  /** Only a single-word key can end the atoms block: `Pair Coeffs`, `Atom Types` and the other
      two-word headers are passed over. */
  lemma OnlySingleWordKeysEndBlock(line: string)
    ensures EndsBlock(line) ==> HeadWord(line) in SingleWordKeys
  {
    FirstWordSpec(Lower(Strip(BeforeHash(Strip(line)))));
    OneWordKeys(HeadWord(line));
  }

  // ---------- atom lines ----------

  /** `_parse_atom_line`: at least four tokens; the id is the first token, x, y, z the last three. */
  function ParseAtomLine(line: string, num: Numbers): (r: Option<AtomRecord>)
    ensures r.Some? <==> var t := Tokens(line); var n := |t|;
      && n >= 4 && num.toInt(t[0]).Some?
      && num.toFloat(t[n - 3]).Some? && num.toFloat(t[n - 2]).Some? && num.toFloat(t[n - 1]).Some?
    ensures r.Some? ==> var t := Tokens(line); var n := |t|;
      && num.toInt(t[0]) == Some(r.value.id)
      && num.toFloat(t[n - 3]) == Some(r.value.x) && num.toFloat(t[n - 2]) == Some(r.value.y)
      && num.toFloat(t[n - 1]) == Some(r.value.z)
  {
    var toks := Tokens(line);
    var n := |toks|;
    if n < 4 then None
    else
      match (num.toFloat(toks[n - 3]), num.toFloat(toks[n - 2]), num.toFloat(toks[n - 1]), num.toInt(toks[0]))
      case (Some(x), Some(y), Some(z), Some(id)) => Some(AtomRecord(id, x, y, z))
      case _ => None
  }

  /** A parsed line's record comes from its first token and its last three; the middle columns
      (type, charge, image flags, ...) play no part. */
  lemma AtomLineColumns(l1: string, l2: string, num: Numbers)
    requires var t1, t2 := Tokens(l1), Tokens(l2);
      && |t1| >= 4 && |t2| >= 4 && t1[0] == t2[0]
      && t1[|t1| - 3..] == t2[|t2| - 3..]
    ensures ParseAtomLine(l1, num) == ParseAtomLine(l2, num)
  {
    var t1, t2 := Tokens(l1), Tokens(l2);
    assert t1[|t1| - 3] == t1[|t1| - 3..][0] == t2[|t2| - 3..][0] == t2[|t2| - 3];
    assert t1[|t1| - 2] == t1[|t1| - 3..][1] == t2[|t2| - 3..][1] == t2[|t2| - 2];
    assert t1[|t1| - 1] == t1[|t1| - 3..][2] == t2[|t2| - 3..][2] == t2[|t2| - 1];
  }

  /** What the read loop keeps of a block line: nothing for a blank or `#` line or one that
      does not parse. */
  function Accept(raw: string, num: Numbers): (r: Option<AtomRecord>)
    ensures IsBlank(raw) || StartsWith(Strip(raw), "#") ==> r.None?
  {
    var s := Strip(raw);
    if s == "" || StartsWith(s, "#") then None else ParseAtomLine(s, num)
  }

  /** The records of the accepted lines, in file order. */
  function AcceptedRecords(block: seq<string>, num: Numbers): seq<AtomRecord>
  {
    Collect(block, raw => Accept(raw, num))
  }

  /** A skipped line (blank, comment or unparsable) contributes nothing wherever it stands. */
  lemma SkippedLine(a: seq<string>, raw: string, b: seq<string>, num: Numbers)
    requires Accept(raw, num).None?
    ensures AcceptedRecords(a + [raw] + b, num) == AcceptedRecords(a + b, num)
  {
    var f := raw => Accept(raw, num);
    assert Collect([raw], f) == [] by {
      assert [raw][..0] == [];
      assert f(raw).None?;
    }
    CollectAppend(a + [raw], b, f);
    CollectAppend(a, [raw], f);
    CollectAppend(a, b, f);
  }

  /** An accepted line contributes exactly its record at its place. */
  lemma AcceptedLine(a: seq<string>, raw: string, b: seq<string>, num: Numbers)
    requires Accept(raw, num).Some?
    ensures AcceptedRecords(a + [raw] + b, num) == AcceptedRecords(a, num) + [Accept(raw, num).value] + AcceptedRecords(b, num)
  {
    var f := raw => Accept(raw, num);
    CollectAppend(a + [raw], b, f);
    CollectAppend(a, [raw], f);
    assert [raw][..0] == [];
  }

  /** The read keeps a record exactly when some line of the block gives it. */
  lemma AcceptedRecordsMembers(block: seq<string>, num: Numbers)
    ensures forall rec :: rec in AcceptedRecords(block, num) <==> exists i :: 0 <= i < |block| && Accept(block[i], num) == Some(rec)
  {
    var f := raw => Accept(raw, num);
    CollectMembers(block, f);
    assert forall i :: 0 <= i < |block| ==> f(block[i]) == Accept(block[i], num);
  }

  // ---------- stable sort by id ----------

  /** Each record's id is at most the next one's. */
  predicate SortedById(s: seq<AtomRecord>)
  {
    forall i :: 0 <= i < |s| - 1 ==> s[i].id <= s[i + 1].id
  }

  /** Adjacent order gives the order of every pair. */
  lemma {:induction false} SortedByIdPairs(s: seq<AtomRecord>)
    requires SortedById(s)
    ensures forall i, j :: 0 <= i < j < |s| ==> s[i].id <= s[j].id
  {
    if |s| > 1 {
      SortedByIdPairs(s[1..]);
      forall i, j | 0 <= i < j < |s| ensures s[i].id <= s[j].id {
        assert s[j] == s[1..][j - 1];
        if i > 0 {
          assert s[i] == s[1..][i - 1];
        } else if j > 1 {
          assert s[1] == s[1..][0];
        }
      }
    }
  }

  /** The records with id `v`, in order. */
  function WithId(s: seq<AtomRecord>, v: int): seq<AtomRecord>
  {
    if |s| == 0 then [] else (if s[0].id == v then [s[0]] else []) + WithId(s[1..], v)
  }

  /** Places `a` after every record whose id is at most its own. */
  function InsertById(r: seq<AtomRecord>, a: AtomRecord): seq<AtomRecord>
  {
    if |r| == 0 then [a]
    else if a.id < r[0].id then [a] + r
    else [r[0]] + InsertById(r[1..], a)
  }

  lemma {:induction false} InsertByIdMultiset(r: seq<AtomRecord>, a: AtomRecord)
    ensures multiset(InsertById(r, a)) == multiset(r) + multiset{a}
  {
    if |r| > 0 && a.id >= r[0].id {
      InsertByIdMultiset(r[1..], a);
      assert r == [r[0]] + r[1..];
    }
  }

  lemma {:induction false} InsertByIdSorted(r: seq<AtomRecord>, a: AtomRecord)
    requires SortedById(r)
    ensures SortedById(InsertById(r, a))
  {
    if |r| > 0 && a.id >= r[0].id {
      var rest := InsertById(r[1..], a);
      InsertByIdSorted(r[1..], a);
      assert r[0].id <= rest[0].id;
      var t := [r[0]] + rest;
      forall i | 0 <= i < |t| - 1 ensures t[i].id <= t[i + 1].id {
        if i > 0 {
          assert t[i] == rest[i - 1] && t[i + 1] == rest[i];
        }
      }
    }
  }

  /** `argsort(ids, kind="mergesort")` applied to the records: ascending ids, and the same records. */
  function SortById(s: seq<AtomRecord>): (r: seq<AtomRecord>)
    ensures SortedById(r)
    ensures multiset(r) == multiset(s)
  {
    if |s| == 0 then []
    else
      var n := |s| - 1;
      assert s == s[..n] + [s[n]];
      var sorted := SortById(s[..n]);
      InsertByIdSorted(sorted, s[n]);
      InsertByIdMultiset(sorted, s[n]);
      InsertById(sorted, s[n])
  }

  lemma {:induction false} WithIdAppend(a: seq<AtomRecord>, b: seq<AtomRecord>, v: int)
    ensures WithId(a + b, v) == WithId(a, v) + WithId(b, v)
  {
    if |a| == 0 {
      assert a + b == b;
    } else {
      var c := a + b;
      assert c[0] == a[0] && c[1..] == a[1..] + b;
      WithIdAppend(a[1..], b, v);
      var h := if a[0].id == v then [a[0]] else [];
      assert WithId(c, v) == h + WithId(c[1..], v);
      assert WithId(a, v) == h + WithId(a[1..], v);
    }
  }

  lemma {:induction false} WithIdNone(s: seq<AtomRecord>, v: int)
    requires forall k :: 0 <= k < |s| ==> s[k].id != v
    ensures WithId(s, v) == []
  {
    if |s| > 0 {
      assert forall k :: 0 <= k < |s| - 1 ==> s[1..][k] == s[k + 1];
      WithIdNone(s[1..], v);
    }
  }

  /** No record of an ascending sequence has an id below its first one. */
  lemma {:induction false} WithIdBelowHead(s: seq<AtomRecord>, v: int)
    requires SortedById(s)
    ensures |s| == 0 || v < s[0].id ==> WithId(s, v) == []
  {
    if |s| > 0 && v < s[0].id {
      WithIdBelowHead(s[1..], v);
    }
  }

  lemma {:induction false} InsertByIdWithId(r: seq<AtomRecord>, a: AtomRecord, v: int)
    requires SortedById(r)
    ensures WithId(InsertById(r, a), v) == WithId(r, v) + (if a.id == v then [a] else [])
  {
    if |r| == 0 {
    } else if a.id < r[0].id {
      WithIdBelowHead(r, a.id);
      assert ([a] + r)[1..] == r;
    } else {
      InsertByIdWithId(r[1..], a, v);
      var rest := InsertById(r[1..], a);
      assert ([r[0]] + rest)[1..] == rest;
    }
  }

  /** Stability: the records sharing an id keep their file order. */
  lemma {:induction false} SortByIdStable(s: seq<AtomRecord>, v: int)
    ensures WithId(SortById(s), v) == WithId(s, v)
  {
    if |s| > 0 {
      var n := |s| - 1;
      assert s == s[..n] + [s[n]];
      var sorted := SortById(s[..n]);
      var tail := if s[n].id == v then [s[n]] else [];
      assert SortById(s) == InsertById(sorted, s[n]);
      SortByIdStable(s[..n], v);
      InsertByIdWithId(sorted, s[n], v);
      assert WithId(SortById(s), v) == WithId(s[..n], v) + tail;
      WithIdAppend(s[..n], [s[n]], v);
      assert WithId([s[n]], v) == tail + WithId([s[n]][1..], v);
    }
  }

  /** The sorted order is the only ascending order that keeps ties in file order. */
  lemma SortByIdUnique(s: seq<AtomRecord>, t: seq<AtomRecord>)
    requires SortedById(t) && forall v :: WithId(t, v) == WithId(s, v)
    ensures t == SortById(s)
  {
    var r := SortById(s);
    forall v ensures WithId(t, v) == WithId(r, v) {
      SortByIdStable(s, v);
    }
    SortedEqualByIds(t, r);
  }

  /** Two ascending sequences with the same records per id are empty together and otherwise
      start with the same record. */
  lemma SameHead(a: seq<AtomRecord>, b: seq<AtomRecord>)
    requires SortedById(a) && SortedById(b)
    requires forall v :: WithId(a, v) == WithId(b, v)
    ensures |a| > 0 <==> |b| > 0
    ensures |a| > 0 ==> a[0] == b[0]
  {
    assert |b| > 0 ==> WithId(b, b[0].id) == [b[0]] + WithId(b[1..], b[0].id);
    if |a| > 0 {
      var v := a[0].id;
      assert WithId(a, v) == [a[0]] + WithId(a[1..], v);
      WithIdBelowHead(b, v);
      assert |b| > 0 && b[0].id <= v;
      WithIdBelowHead(a, b[0].id);
      assert b[0].id == v;
      assert WithId(b, v) == [b[0]] + WithId(b[1..], v);
      assert a[0] == WithId(a, v)[0] == WithId(b, v)[0] == b[0];
    }
  }

  /** Removing an equal first record keeps the records per id equal. */
  lemma SameTails(a: seq<AtomRecord>, b: seq<AtomRecord>)
    requires |a| > 0 && |b| > 0 && a[0] == b[0]
    requires forall v :: WithId(a, v) == WithId(b, v)
    ensures forall w :: WithId(a[1..], w) == WithId(b[1..], w)
  {
    forall w ensures WithId(a[1..], w) == WithId(b[1..], w) {
      var p := if a[0].id == w then [a[0]] else [];
      assert WithId(a, w) == p + WithId(a[1..], w);
      assert WithId(b, w) == p + WithId(b[1..], w);
      assert WithId(a[1..], w) == WithId(a, w)[|p|..];
    }
  }

  /** Two ascending sequences with the same records per id are equal. */
  lemma {:induction false} SortedEqualByIds(a: seq<AtomRecord>, b: seq<AtomRecord>)
    requires SortedById(a) && SortedById(b)
    requires forall v :: WithId(a, v) == WithId(b, v)
    ensures a == b
    decreases |a|
  {
    SameHead(a, b);
    if |a| > 0 {
      SameTails(a, b);
      SortedEqualByIds(a[1..], b[1..]);
      assert a == [a[0]] + a[1..] && b == [b[0]] + b[1..];
    }
  }

  // ---------- the whole read ----------

  /** The dataset of the records in the given order. */
  function DataSetOf(recs: seq<AtomRecord>, box: Box): (d: DataSet)
    ensures |d.ids| == |recs| && |d.x| == |recs| && |d.y| == |recs| && |d.z| == |recs|
    ensures forall i :: 0 <= i < |recs| ==> AtomRecord(d.ids[i], d.x[i], d.y[i], d.z[i]) == recs[i]
    ensures d.box == box
  {
    DataSet(seq(|recs|, i requires 0 <= i < |recs| => recs[i].id),
            seq(|recs|, i requires 0 <= i < |recs| => recs[i].x),
            seq(|recs|, i requires 0 <= i < |recs| => recs[i].y),
            seq(|recs|, i requires 0 <= i < |recs| => recs[i].z),
            box)
  }

  /** The records a dataset holds, atom by atom. */
  function RecordsOf(d: DataSet): seq<AtomRecord>
    requires |d.x| == |d.ids| && |d.y| == |d.ids| && |d.z| == |d.ids|
  {
    seq(|d.ids|, i requires 0 <= i < |d.ids| => AtomRecord(d.ids[i], d.x[i], d.y[i], d.z[i]))
  }

  /** Building the dataset from records and reading its records back gives the same records. */
  lemma RecordsOfDataSetOf(recs: seq<AtomRecord>, box: Box)
    ensures var d := DataSetOf(recs, box);
      |d.x| == |d.ids| && |d.y| == |d.ids| && |d.z| == |d.ids| && RecordsOf(d) == recs
  {
    var d := DataSetOf(recs, box);
    assert forall i :: 0 <= i < |recs| ==> RecordsOf(d)[i] == recs[i];
  }

  /** The accepted records of the atoms block, when there is an `Atoms` header. */
  function ParsedAtoms(lines: seq<string>, num: Numbers): Option<seq<AtomRecord>>
  {
    match FirstSection(lines, "atoms")
    case None => None
    case Some(i) => Some(AcceptedRecords(AtomsBlock(lines, i), num))
  }

  /** `read_lammps_data` on the file's lines. The box is checked first, then the header, then
      the atom count. */
  function LammpsData(lines: seq<string>, num: Numbers): (r: Result<DataSet, ParseError>)
    ensures r == Failure(MissingBoxBounds) <==> BoxFrom(lines, num).Failure?
    ensures r == Failure(MissingAtomsSection) <==> BoxFrom(lines, num).Success? && ParsedAtoms(lines, num).None?
    ensures r == Failure(NoAtomsParsed) <==>
      BoxFrom(lines, num).Success? && ParsedAtoms(lines, num).Some? && ParsedAtoms(lines, num).value == []
    ensures r.Success? ==> r.value.box == BoxFrom(lines, num).value && ParsedAtoms(lines, num).Some?
  {
    match BoxFrom(lines, num)
    case Failure(e) => Failure(e)
    case Success(box) =>
      match ParsedAtoms(lines, num)
      case None => Failure(MissingAtomsSection)
      case Some(recs) => if |recs| == 0 then Failure(NoAtomsParsed) else Success(DataSetOf(SortById(recs), box))
  }

  /** The dataset of the sorted records: one atom per record, ids ascending, the coordinates
      travelling with their ids, and records of equal id in their original order. */
  lemma SortedDataSet(recs: seq<AtomRecord>, box: Box)
    ensures var d := DataSetOf(SortById(recs), box);
      && |d.ids| == |recs| && |d.x| == |recs| && |d.y| == |recs| && |d.z| == |recs|
      && (forall i, j :: 0 <= i < j < |d.ids| ==> d.ids[i] <= d.ids[j])
      && multiset(RecordsOf(d)) == multiset(recs)
      && (forall v :: WithId(RecordsOf(d), v) == WithId(recs, v))
  {
    var sorted := SortById(recs);
    assert |sorted| == |multiset(sorted)| == |multiset(recs)| == |recs|;
    RecordsOfDataSetOf(sorted, box);
    DataSetIdsSorted(sorted, box);
    SortByIdKeepsIds(recs);
  }

  /** The id column of a dataset built from sorted records is sorted. */
  lemma DataSetIdsSorted(sorted: seq<AtomRecord>, box: Box)
    requires SortedById(sorted)
    ensures var d := DataSetOf(sorted, box); forall i, j :: 0 <= i < j < |d.ids| ==> d.ids[i] <= d.ids[j]
  {
    var d := DataSetOf(sorted, box);
    SortedByIdPairs(sorted);
    forall i, j | 0 <= i < j < |d.ids| ensures d.ids[i] <= d.ids[j] {
      assert d.ids[i] == sorted[i].id && d.ids[j] == sorted[j].id;
    }
  }

  /** Sorting keeps, for every id, its records in their order. */
  lemma SortByIdKeepsIds(recs: seq<AtomRecord>)
    ensures forall v :: WithId(SortById(recs), v) == WithId(recs, v)
  {
    forall v ensures WithId(SortById(recs), v) == WithId(recs, v) {
      SortByIdStable(recs, v);
    }
  }

  /** A successful read holds one atom per accepted line, with ids ascending, the coordinates
      travelling with their ids, and atoms of equal id in file order. */
  lemma LammpsDataResult(lines: seq<string>, num: Numbers)
    requires LammpsData(lines, num).Success?
    ensures var d := LammpsData(lines, num).value;
      var recs := ParsedAtoms(lines, num).value;
      && |d.ids| == |recs| > 0 && |d.x| == |recs| && |d.y| == |recs| && |d.z| == |recs|
      && (forall i, j :: 0 <= i < j < |d.ids| ==> d.ids[i] <= d.ids[j])
      && multiset(RecordsOf(d)) == multiset(recs)
      && (forall v :: WithId(RecordsOf(d), v) == WithId(recs, v))
  {
    var recs := ParsedAtoms(lines, num).value;
    var box := BoxFrom(lines, num).value;
    assert LammpsData(lines, num).value == DataSetOf(SortById(recs), box);
    SortedDataSet(recs, box);
  }

  /** The `for raw in block` loop of `read_lammps_data`: blank and `#` lines are skipped, and so
      is a line `_parse_atom_line` rejects. */
  method CollectRecords(block: seq<string>, num: Numbers) returns (recs: seq<AtomRecord>)
    ensures recs == AcceptedRecords(block, num)
  {
    recs := [];
    var k := 0;
    while k < |block|
      invariant 0 <= k <= |block|
      invariant recs == AcceptedRecords(block[..k], num)
    {
      assert block[..k + 1][..k] == block[..k];
      var s := Strip(block[k]);
      if s != "" && !StartsWith(s, "#") {
        var rec := ParseAtomLine(s, num);
        if rec.Some? {
          recs := recs + [rec.value];
        }
      }
      k := k + 1;
    }
    assert block[..k] == block;
  }

  /** The key `read_lammps_data` passes, lowercased as `_find_section` does. */
  lemma AtomsKey()
    ensures Lower("Atoms") == "atoms"
  {
    var l := Lower("Atoms");
    assert l[0] == 'a' && l[1] == 't' && l[2] == 'o' && l[3] == 'm' && l[4] == 's';
  }

  /** `read_lammps_data` (minus reading the file): box, header, block, records, then the stable
      sort. */
  method ReadLammpsData(lines: seq<string>, num: Numbers) returns (r: Result<DataSet, ParseError>)
    ensures r == LammpsData(lines, num)
  {
    var box := ParseBox(lines, num);
    if box.Failure? {
      return Failure(box.error);
    }
    var atomsIdx := FindSection(lines, "Atoms");
    AtomsKey();
    if atomsIdx.None? {
      return Failure(MissingAtomsSection);
    }
    var block := IterAtomsBlock(lines, atomsIdx.value);
    var recs := CollectRecords(block, num);
    if |recs| == 0 {
      return Failure(NoAtomsParsed);
    }
    r := Success(DataSetOf(SortById(recs), box.value));
  }
}
