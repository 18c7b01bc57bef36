/**
 * The pieces of Ruby string behaviour the alias engine relies on:
 * `String#split` with no argument (runs of whitespace separate words),
 * `String#split("\n")` (trailing empty fields are dropped), `Array#join`,
 * `Array#uniq` (first occurrence kept), `String#downcase` and Rails'
 * `compact_blank`. Characters outside ASCII are never case-folded.
 */
module Text {

  /** The whitespace of Ruby's `split` and of the regex class `\s`. */
  predicate IsSpace(c: char) {
    c == ' ' || c == '\t' || c == '\n' || c == '\r' || c == '\U{000B}' || c == '\U{000C}'
  }

  /** The class `[[:space:]]` behind Rails' `blank?`: the ASCII white space
      above, next line, no-break space and the Unicode space separators. */
  predicate IsUnicodeSpace(c: char) {
    IsSpace(c) || c == '\U{0085}' || c == '\U{00A0}' || c == '\U{1680}' ||
    ('\U{2000}' <= c <= '\U{200A}') || c == '\U{2028}' || c == '\U{2029}' ||
    c == '\U{202F}' || c == '\U{205F}' || c == '\U{3000}'
  }

  /** `String#blank?`: empty or made of white space only. */
  predicate IsBlank(s: string) {
    forall i :: 0 <= i < |s| ==> IsUnicodeSpace(s[i])
  }

  predicate NoSpace(s: string) {
    forall i :: 0 <= i < |s| ==> !IsSpace(s[i])
  }

  function Lower(c: char): char {
    if 'A' <= c <= 'Z' then (c as int + 32) as char else c
  }

  predicate IsLowerCase(s: string) {
    forall i :: 0 <= i < |s| ==> Lower(s[i]) == s[i]
  }

  /** `String#downcase`, on ASCII letters. */
  function LowerStr(s: string): (r: string)
    ensures |r| == |s|
    ensures forall i :: 0 <= i < |s| ==> r[i] == Lower(s[i])
  {
    seq(|s|, i requires 0 <= i < |s| => Lower(s[i]))
  }

  lemma LowerStrIsLowerCase(s: string)
    ensures IsLowerCase(LowerStr(s))
  {
    forall i | 0 <= i < |s| ensures Lower(LowerStr(s)[i]) == LowerStr(s)[i] {
      var c := s[i];
      assert LowerStr(s)[i] == Lower(c);
    }
  }

  predicate EqualIgnoringCase(a: string, b: string) {
    |a| == |b| && forall i :: 0 <= i < |a| ==> Lower(a[i]) == Lower(b[i])
  }

  /** The `ILIKE '%x%'` pre-filter: `x` occurs in `s`, ignoring case. */
  predicate ContainsIgnoringCase(s: string, x: string) {
    exists i :: 0 <= i <= |s| - |x| && OccursAt(s, x, i)
  }

  predicate OccursAt(s: string, x: string, i: int)
    requires 0 <= i <= |s| - |x|
  {
    EqualIgnoringCase(s[i..i + |x|], x)
  }

  // ---------------------------------------------------------------------
  // Words: String#split with no argument

  /** Length of the run of non-whitespace at the start of `s`. */
  function WordLength(s: string): (n: nat)
    requires s != [] && !IsSpace(s[0])
    ensures 1 <= n <= |s|
    ensures NoSpace(s[..n])
    ensures n == |s| || IsSpace(s[n])
    decreases |s|
  {
    if |s| == 1 || IsSpace(s[1]) then 1 else 1 + WordLength(s[1..])
  }

  /** The words of `s`: maximal runs of non-whitespace, in order. */
  function Words(s: string): (ws: seq<string>)
    ensures forall w :: w in ws ==> w != [] && NoSpace(w)
    decreases |s|
  {
    if s == [] then []
    else if IsSpace(s[0]) then Words(s[1..])
    else
      var n := WordLength(s);
      [s[..n]] + Words(s[n..])
  }

  /** Every word of `s` is a slice of `s`. */
  lemma {:induction false} WordOccurs(s: string, w: string) returns (i: nat)
    requires w in Words(s)
    ensures i + |w| <= |s| && s[i..i + |w|] == w
    decreases |s|
  {
    if IsSpace(s[0]) {
      var j := WordOccurs(s[1..], w);
      i := j + 1;
      assert s[1..][j..j + |w|] == s[i..i + |w|];
    } else {
      var n := WordLength(s);
      if w == s[..n] {
        i := 0;
      } else {
        var j := WordOccurs(s[n..], w);
        i := j + n;
        assert s[n..][j..j + |w|] == s[i..i + |w|];
      }
    }
  }

  /** `Array#join(sep)` for a one-character separator. */
  function Join(ws: seq<string>, sep: char): string
    decreases |ws|
  {
    if ws == [] then []
    else if |ws| == 1 then ws[0]
    else ws[0] + [sep] + Join(ws[1..], sep)
  }

  lemma {:induction false} WordLengthExtend(x: string, z: string)
    requires x != [] && !IsSpace(x[0])
    requires z == [] || IsSpace(z[0])
    ensures WordLength(x + z) == WordLength(x)
    decreases |x|
  {
    if |x| == 1 {
    } else if IsSpace(x[1]) {
    } else {
      assert (x + z)[1..] == x[1..] + z;
      WordLengthExtend(x[1..], z);
    }
  }

  /** Whitespace splits: the words on both sides of it are kept apart. */
  lemma {:induction false} WordsAroundSpace(x: string, sp: char, y: string)
    requires IsSpace(sp)
    ensures Words(x + [sp] + y) == Words(x) + Words(y)
    decreases |x|
  {
    var s := x + [sp] + y;
    if x == [] {
      assert s == [sp] + y;
      assert s[1..] == y;
    } else if IsSpace(x[0]) {
      assert s[1..] == x[1..] + [sp] + y;
      WordsAroundSpace(x[1..], sp, y);
    } else {
      var n := WordLength(x);
      WordLengthExtend(x, [sp] + y);
      assert s == x + ([sp] + y);
      assert WordLength(s) == n;
      assert s[..n] == x[..n];
      assert s[n..] == x[n..] + [sp] + y;
      WordsAroundSpace(x[n..], sp, y);
    }
  }

  lemma WordsOfWord(w: string)
    requires w != [] && NoSpace(w)
    ensures Words(w) == [w]
  {
    var n := WordLength(w);
    assert n == |w|;
    assert w[..n] == w;
    assert w[n..] == [];
  }

  /** Splitting words joined by single spaces gives the words back. */
  lemma {:induction false} WordsOfJoin(ws: seq<string>)
    requires forall w :: w in ws ==> w != [] && NoSpace(w)
    ensures Words(Join(ws, ' ')) == ws
    decreases |ws|
  {
    if ws == [] {
    } else if |ws| == 1 {
      assert ws[0] in ws;
      WordsOfWord(ws[0]);
    } else {
      assert ws[0] in ws;
      assert forall w :: w in ws[1..] ==> w in ws;
      WordsAroundSpace(ws[0], ' ', Join(ws[1..], ' '));
      WordsOfWord(ws[0]);
      WordsOfJoin(ws[1..]);
    }
  }

  // ---------------------------------------------------------------------
  // Lines: String#split("\n")

  /** `s` cut at every newline, every field kept (the `split("\n", -1)` view). */
  function Fields(s: string): (fs: seq<string>)
    ensures |fs| >= 1
    ensures forall f :: f in fs ==> '\n' !in f
    decreases |s|
  {
    if s == [] then [[]]
    else
      var rest := Fields(s[1..]);
      if s[0] == '\n' then [[]] + rest
      else [[s[0]] + rest[0]] + rest[1..]
  }

  function DropTrailingEmpty(fs: seq<string>): (r: seq<string>)
    ensures |r| <= |fs| && r == fs[..|r|]
    ensures r == [] || r[|r| - 1] != []
    ensures forall i :: |r| <= i < |fs| ==> fs[i] == []
    decreases |fs|
  {
    if fs == [] then []
    else if fs[|fs| - 1] == [] then DropTrailingEmpty(fs[..|fs| - 1])
    else fs
  }

  /** `String#split("\n")`: the lines of `s`, without the trailing empty ones. */
  function SplitLines(s: string): (ls: seq<string>)
    ensures forall l :: l in ls ==> '\n' !in l
    ensures ls == [] || ls[|ls| - 1] != []
  {
    var fs := Fields(s);
    var r := DropTrailingEmpty(fs);
    assert forall l :: l in r ==> l in fs;
    r
  }

  lemma {:induction false} FieldsOfLine(a: string)
    requires '\n' !in a
    ensures Fields(a) == [a]
    decreases |a|
  {
    if a != [] {
      FieldsOfLine(a[1..]);
      assert [a[0]] + a[1..] == a;
    }
  }

  lemma {:induction false} FieldsAroundNewline(a: string, b: string)
    requires '\n' !in a
    ensures Fields(a + ['\n'] + b) == [a] + Fields(b)
    decreases |a|
  {
    var s := a + ['\n'] + b;
    if a == [] {
      assert s[1..] == b;
    } else {
      assert s[1..] == a[1..] + ['\n'] + b;
      FieldsAroundNewline(a[1..], b);
      assert [a[0]] + a[1..] == a;
    }
  }

  lemma {:induction false} FieldsOfJoin(ls: seq<string>)
    requires ls != []
    requires forall l :: l in ls ==> '\n' !in l
    ensures Fields(Join(ls, '\n')) == ls
    decreases |ls|
  {
    if |ls| == 1 {
      FieldsOfLine(ls[0]);
    } else {
      FieldsAroundNewline(ls[0], Join(ls[1..], '\n'));
      FieldsOfJoin(ls[1..]);
    }
  }

  /** Splitting lines joined by newlines gives them back, when no line holds a
      newline and the last one is not empty (split drops trailing empty lines). */
  lemma SplitLinesOfJoin(ls: seq<string>)
    requires forall l :: l in ls ==> '\n' !in l
    requires ls == [] || ls[|ls| - 1] != []
    ensures SplitLines(Join(ls, '\n')) == ls
  {
    if ls != [] {
      FieldsOfJoin(ls);
    }
  }

  /** Cutting a down-cased text into words keeps every word down-cased. */
  lemma {:induction false} WordsLowerCase(s: string)
    requires IsLowerCase(s)
    ensures forall w :: w in Words(s) ==> IsLowerCase(w)
    decreases |s|
  {
    if s != [] {
      if IsSpace(s[0]) {
        WordsLowerCase(s[1..]);
      } else {
        var n := WordLength(s);
        assert IsLowerCase(s[..n]);
        WordsLowerCase(s[n..]);
      }
    }
  }

  lemma {:induction false} FieldsLowerCase(s: string)
    requires IsLowerCase(s)
    ensures forall f :: f in Fields(s) ==> IsLowerCase(f)
    decreases |s|
  {
    if s != [] {
      var rest := Fields(s[1..]);
      FieldsLowerCase(s[1..]);
      if s[0] != '\n' {
        assert rest[0] in rest;
        assert IsLowerCase([s[0]] + rest[0]);
        assert forall f :: f in rest[1..] ==> f in rest;
      }
    }
  }

  /** Cutting a down-cased text into lines keeps every line down-cased. */
  lemma SplitLinesLowerCase(s: string)
    requires IsLowerCase(s)
    ensures forall l :: l in SplitLines(s) ==> IsLowerCase(l)
  {
    FieldsLowerCase(s);
    var fs := Fields(s);
    var r := DropTrailingEmpty(fs);
    assert forall l :: l in r ==> l in fs;
  }

  // ---------------------------------------------------------------------
  // Array#uniq and flattening

  predicate NoDuplicates<T(==)>(s: seq<T>) {
    forall i, j :: 0 <= i < j < |s| ==> s[i] != s[j]
  }

  /** `Array#uniq`: the first occurrence of every element, in order. */
  function Uniq<T(==,!new)>(s: seq<T>): (r: seq<T>)
    ensures forall x :: x in r <==> x in s
    ensures NoDuplicates(r)
    decreases |s|
  {
    if s == [] then []
    else
      var r := Uniq(s[..|s| - 1]);
      assert forall x :: x in s[..|s| - 1] ==> x in s;
      if s[|s| - 1] in r then r else r + [s[|s| - 1]]
  }

  /** Position of the first occurrence of `x` in `s`. */
  function FirstIndex<T(==)>(s: seq<T>, x: T): (i: nat)
    requires x in s
    ensures i < |s| && s[i] == x && x !in s[..i]
    decreases |s|
  {
    if s[0] == x then 0
    else
      var j := FirstIndex(s[1..], x);
      assert s[..j + 1] == [s[0]] + s[1..][..j];
      j + 1
  }

  lemma {:induction false} FirstIndexSnoc<T>(p: seq<T>, y: T, x: T)
    requires x in p
    ensures FirstIndex(p + [y], x) == FirstIndex(p, x)
    decreases |p|
  {
    if p[0] != x {
      assert (p + [y])[1..] == p[1..] + [y];
      FirstIndexSnoc(p[1..], y, x);
    }
  }

  lemma {:induction false} FirstIndexLast<T>(p: seq<T>, x: T)
    requires x !in p
    ensures FirstIndex(p + [x], x) == |p|
    decreases |p|
  {
    if p != [] {
      assert (p + [x])[1..] == p[1..] + [x];
      FirstIndexLast(p[1..], x);
    }
  }

  /** `Uniq` keeps elements in the order of their first occurrences. */
  lemma {:induction false} UniqOrder<T(!new)>(s: seq<T>)
    ensures forall i, j :: 0 <= i < j < |Uniq(s)| ==>
              FirstIndex(s, Uniq(s)[i]) < FirstIndex(s, Uniq(s)[j])
    decreases |s|
  {
    if s != [] {
      var p := s[..|s| - 1];
      var x := s[|s| - 1];
      UniqOrder(p);
      var r := Uniq(p);
      forall i, j | 0 <= i < j < |Uniq(s)|
        ensures FirstIndex(s, Uniq(s)[i]) < FirstIndex(s, Uniq(s)[j])
      {
        assert s == p + [x];
        assert Uniq(s)[i] in p;
        FirstIndexSnoc(p, x, Uniq(s)[i]);
        if j < |r| {
          FirstIndexSnoc(p, x, Uniq(s)[j]);
        } else {
          FirstIndexLast(p, x);
        }
      }
    }
  }

  /** `Uniq` leaves a sequence without duplicates as it is. */
  lemma {:induction false} UniqOfDistinct<T(!new)>(s: seq<T>)
    requires NoDuplicates(s)
    ensures Uniq(s) == s
    decreases |s|
  {
    if s != [] {
      var p := s[..|s| - 1];
      assert NoDuplicates(p);
      UniqOfDistinct(p);
      assert s[|s| - 1] !in p;
      assert p + [s[|s| - 1]] == s;
    }
  }

  function Flatten<T>(ss: seq<seq<T>>): (r: seq<T>)
    decreases |ss|
  {
    if ss == [] then [] else ss[0] + Flatten(ss[1..])
  }

  lemma {:induction false} InFlatten<T>(ss: seq<seq<T>>, i: nat, x: T)
    requires i < |ss| && x in ss[i]
    ensures x in Flatten(ss)
    decreases |ss|
  {
    if i > 0 {
      InFlatten(ss[1..], i - 1, x);
    }
  }

  /** An element of a flattened sequence comes from one of the parts. */
  lemma {:induction false} FlattenIn<T>(ss: seq<seq<T>>, x: T) returns (i: nat)
    requires x in Flatten(ss)
    ensures i < |ss| && x in ss[i]
    decreases |ss|
  {
    if x in ss[0] {
      i := 0;
    } else {
      var j := FlattenIn(ss[1..], x);
      i := j + 1;
    }
  }

  lemma {:induction false} FlattenSnoc<T>(ss: seq<seq<T>>, t: seq<T>)
    ensures Flatten(ss + [t]) == Flatten(ss) + t
    decreases |ss|
  {
    if ss == [] {
      assert [t][1..] == [];
    } else {
      assert (ss + [t])[1..] == ss[1..] + [t];
      FlattenSnoc(ss[1..], t);
    }
  }

  /** The words of newline-joined lines are the words of the lines, in order. */
  lemma {:induction false} WordsOfLines(ls: seq<string>)
    ensures Words(Join(ls, '\n')) == Flatten(seq(|ls|, i requires 0 <= i < |ls| => Words(ls[i])))
    decreases |ls|
  {
    var ws := seq(|ls|, i requires 0 <= i < |ls| => Words(ls[i]));
    if ls == [] {
    } else if |ls| == 1 {
      assert Flatten(ws) == ws[0] + Flatten(ws[1..]);
      assert ws[1..] == [];
    } else {
      WordsAroundSpace(ls[0], '\n', Join(ls[1..], '\n'));
      WordsOfLines(ls[1..]);
      assert ws[1..] == seq(|ls[1..]|, i requires 0 <= i < |ls[1..]| => Words(ls[1..][i]));
    }
  }

  /** `select`/`reject` with a predicate: the elements kept, in order. */
  function Filter<T(!new)>(s: seq<T>, keep: T -> bool): (r: seq<T>)
    ensures |r| <= |s|
    ensures forall x :: x in r <==> x in s && keep(x)
    decreases |s|
  {
    if s == [] then []
    else (if keep(s[0]) then [s[0]] else []) + Filter(s[1..], keep)
  }

  /** Filtering keeps the order and the multiplicity of the kept elements:
      it goes element by element, keeping or dropping each. */
  lemma {:induction false} FilterAppend<T(!new)>(s: seq<T>, t: seq<T>, keep: T -> bool)
    ensures Filter(s + t, keep) == Filter(s, keep) + Filter(t, keep)
    decreases |s|
  {
    if s != [] {
      assert (s + t)[1..] == s[1..] + t;
      FilterAppend(s[1..], t, keep);
    } else {
      assert s + t == t;
    }
  }

  /** A single element is kept exactly when `keep` holds for it. */
  lemma FilterOne<T(!new)>(x: T, keep: T -> bool)
    ensures Filter([x], keep) == if keep(x) then [x] else []
  {
    assert [x][1..] == [];
  }

  /** `compact_blank` on an array of strings. */
  function CompactBlank(ws: seq<string>): seq<string> {
    Filter(ws, w => !IsBlank(w))
  }
}
