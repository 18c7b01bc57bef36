/**
 * Rewriting tag names and tag queries through the alias table
 * (`TagAlias.to_aliased_with_originals`, `TagAlias.to_aliased` and
 * `TagAlias.to_aliased_query`).
 *
 * The alias table is passed in as a map from antecedent to consequent: it is
 * the set of aliases in the `active` scope (see TagGraph.ActiveTable). The
 * category names (`TagCategory.mapping.keys`) are a parameter.
 */
module AliasQuery {
  import opened Wrappers
  import opened Text

  /** What a name becomes: the overriding name, else the consequent of its
      active alias, else the name itself. */
  function Resolve(active: map<string, string>, overrides: map<string, string>, name: string): string {
    if name in overrides then overrides[name]
    else if name in active then active[name]
    else name
  }

  /** `to_aliased_with_originals`: every name mapped to itself, then merged with
      the active aliases whose antecedent is one of the names. */
  function ToAliasedWithOriginals(names: seq<string>, active: map<string, string>): (m: map<string, string>)
    ensures names == [] ==> m == map[]
    ensures forall n :: n in m <==> n in names
    ensures forall n :: n in m ==> m[n] == Resolve(active, map[], n)
  {
    if names == [] then map[]
    else
      var originals := map n | n in names :: n;
      var aliases := map n | n in names && n in active :: active[n];
      originals + aliases
  }

  /** `to_aliased`: the values of `to_aliased_with_originals`, in the order the
      hash was built, that is one per distinct name in first-occurrence order. */
  function ToAliased(names: seq<string>, active: map<string, string>): (r: seq<string>)
  {
    var m := ToAliasedWithOriginals(names, active);
    var keys := Uniq(names);
    seq(|keys|, i requires 0 <= i < |keys| => m[keys[i]])
  }

  lemma ToAliasedSpec(names: seq<string>, active: map<string, string>)
    ensures |ToAliased(names, active)| == |Uniq(names)|
    ensures forall i :: 0 <= i < |Uniq(names)| ==>
              ToAliased(names, active)[i] == Resolve(active, map[], Uniq(names)[i])
    ensures forall n :: n in names ==> Resolve(active, map[], n) in ToAliased(names, active)
  {
    var r := ToAliased(names, active);
    var u := Uniq(names);
    forall n | n in names ensures Resolve(active, map[], n) in r {
      assert n in u;
      var k :| 0 <= k < |u| && u[k] == n;
      assert r[k] == Resolve(active, map[], n);
    }
  }

  // ---------------------------------------------------------------------
  // Removing category prefixes (the two gsub! calls)

  /** Category `c` (in any case) stands at position `q` of `s`, followed by a
      colon and a non-space character: the tail of the regex. */
  predicate CategoryAt(s: string, q: nat, c: string) {
    q + |c| + 1 < |s| &&
    EqualIgnoringCase(s[q..q + |c|], c) && s[q + |c|] == ':' && !IsSpace(s[q + |c| + 1])
  }

  /** The category the regex alternation picks at `q`: the categories are tried
      longest first, so the longest one that matches. */
  function LongestCategoryAt(s: string, q: nat, cats: seq<string>): (r: Option<nat>)
    ensures r.Some? ==> q + r.value + 1 < |s|
    decreases |cats|
  {
    if cats == [] then None
    else
      var rest := LongestCategoryAt(s, q, cats[1..]);
      if CategoryAt(s, q, cats[0]) && (rest.None? || rest.value < |cats[0]|) then Some(|cats[0]|)
      else rest
  }

  /** The alternation finds a category exactly when one matches, and the one it
      finds is a longest match. */
  lemma {:induction false} LongestCategoryAtSpec(s: string, q: nat, cats: seq<string>)
    ensures LongestCategoryAt(s, q, cats).None? <==> forall c :: c in cats ==> !CategoryAt(s, q, c)
    ensures LongestCategoryAt(s, q, cats).Some? ==>
              exists c :: c in cats && |c| == LongestCategoryAt(s, q, cats).value && CategoryAt(s, q, c)
    ensures LongestCategoryAt(s, q, cats).Some? ==>
              forall c :: c in cats && CategoryAt(s, q, c) ==> |c| <= LongestCategoryAt(s, q, cats).value
    decreases |cats|
  {
    if cats != [] {
      LongestCategoryAtSpec(s, q, cats[1..]);
      assert forall c :: c in cats[1..] ==> c in cats;
      assert forall c :: c in cats ==> c == cats[0] || c in cats[1..];
    }
  }

  /** The two spellings of a category prefix the source removes: at the start
      of a line or after a space, `(^| )(-)?(cats):(\S)`, and after a comma and
      a space, `, (-)?(cats):(\S)`. */
  datatype Syntax = NewlineSyntax | CommaSyntax

  /** A match of the pattern starting at the head of `s`: where the category
      starts and how long it is. `bol` says the head of `s` is a line start. */
  function MatchAt(syntax: Syntax, s: string, bol: bool, cats: seq<string>): (m: Option<(nat, nat)>)
    ensures m.Some? ==> 0 < m.value.0 + m.value.1 + 2 <= |s|
  {
    match syntax
    case NewlineSyntax =>
      if bol && |s| > 0 && s[0] == '-' && LongestCategoryAt(s, 1, cats).Some? then
        Some((1, LongestCategoryAt(s, 1, cats).value))
      else if bol && LongestCategoryAt(s, 0, cats).Some? then
        Some((0, LongestCategoryAt(s, 0, cats).value))
      else if |s| > 1 && s[0] == ' ' && s[1] == '-' && LongestCategoryAt(s, 2, cats).Some? then
        Some((2, LongestCategoryAt(s, 2, cats).value))
      else if |s| > 0 && s[0] == ' ' && LongestCategoryAt(s, 1, cats).Some? then
        Some((1, LongestCategoryAt(s, 1, cats).value))
      else None
    case CommaSyntax =>
      if |s| > 1 && s[0] == ',' && s[1] == ' ' then
        if |s| > 2 && s[2] == '-' && LongestCategoryAt(s, 3, cats).Some? then
          Some((3, LongestCategoryAt(s, 3, cats).value))
        else if LongestCategoryAt(s, 2, cats).Some? then
          Some((2, LongestCategoryAt(s, 2, cats).value))
        else None
      else None
  }

  /** `gsub!` of one pattern: scan left to right; at a match, keep what stands
      before the category and the character after the colon, drop the category
      and the colon, and go on after the match. */
  function Strip(syntax: Syntax, s: string, bol: bool, cats: seq<string>): (r: string)
    ensures |r| <= |s|
    decreases |s|
  {
    if s == [] then []
    else
      var m := MatchAt(syntax, s, bol, cats);
      if m.Some? then
        var q := m.value.0;
        var n := m.value.1;
        s[..q] + [s[q + n + 1]] + Strip(syntax, s[q + n + 2..], false, cats)
      else [s[0]] + Strip(syntax, s[1..], s[0] == '\n', cats)
  }

  /** Both substitutions, newline syntax first. */
  function StripCategories(query: string, cats: seq<string>): string {
    Strip(CommaSyntax, Strip(NewlineSyntax, query, true, cats), true, cats)
  }

  // ---------------------------------------------------------------------
  // The effect of stripping on one token (a reference definition)

  /** Names as TagCategory has them: non-empty, lower-case ASCII letters. */
  predicate IsCategoryName(c: string) {
    c != [] && forall i :: 0 <= i < |c| ==> 'a' <= c[i] <= 'z'
  }

  predicate HasCategoryPrefix(t: string, c: string) {
    |c| + 1 < |t| && EqualIgnoringCase(t[..|c|], c) && t[|c|] == ':'
  }

  /** What stripping does to one whitespace-free token: `cat:x` becomes `x` and
      `-cat:x` becomes `-x`, once, when `x` is not empty. */
  ghost function StripToken(t: string, cats: seq<string>): string {
    if |t| > 0 && t[0] == '-' && exists c :: c in cats && HasCategoryPrefix(t[1..], c) then
      var c :| c in cats && HasCategoryPrefix(t[1..], c);
      ['-'] + t[|c| + 2..]
    else if exists c :: c in cats && HasCategoryPrefix(t, c) then
      var c :| c in cats && HasCategoryPrefix(t, c);
      t[|c| + 1..]
    else t
  }

  /** A category prefix ends at the first colon of the token. */
  lemma CategoryPrefixColon(t: string, c: string)
    requires IsCategoryName(c) && HasCategoryPrefix(t, c)
    ensures forall i :: 0 <= i < |c| ==> t[i] != ':'
  {
    forall i | 0 <= i < |c| ensures t[i] != ':' {
      assert Lower(t[..|c|][i]) == Lower(c[i]);
      assert t[..|c|][i] == t[i];
    }
  }

  lemma CategoryPrefixLength(t: string, c: string, d: string)
    requires IsCategoryName(c) && HasCategoryPrefix(t, c)
    requires IsCategoryName(d) && HasCategoryPrefix(t, d)
    ensures |c| == |d|
  {
    CategoryPrefixColon(t, c);
    CategoryPrefixColon(t, d);
  }

  /** Inside a token followed by whitespace (or nothing), the regex tail matches
      exactly where the token has a category prefix. */
  lemma CategoryAtToken(pre: string, t: string, rest: string, k: nat, c: string)
    requires NoSpace(t) && k <= |t| && IsCategoryName(c)
    requires rest == [] || IsSpace(rest[0])
    ensures CategoryAt(pre + t + rest, |pre| + k, c) <==> HasCategoryPrefix(t[k..], c)
  {
    var s := pre + t + rest;
    var q := |pre| + k;
    var j := |pre| + |t|;
    if HasCategoryPrefix(t[k..], c) {
      assert s[q..q + |c|] == t[k..][..|c|];
      assert s[q + |c|] == t[k..][|c|];
      assert s[q + |c| + 1] == t[k..][|c| + 1];
    }
    if CategoryAt(s, q, c) {
      forall m | q <= m < q + |c| ensures !IsSpace(s[m]) {
        assert Lower(s[q..q + |c|][m - q]) == Lower(c[m - q]);
        assert s[q..q + |c|][m - q] == s[m];
      }
      assert j < |s| ==> s[j] == rest[0];
      assert q + |c| + 1 < j;
      assert t[k..][..|c|] == s[q..q + |c|];
      assert t[k..][|c|] == s[q + |c|];
    }
  }

  lemma NotCategoryAtDash(s: string, q: nat, c: string)
    requires q < |s| && s[q] == '-' && IsCategoryName(c)
    ensures !CategoryAt(s, q, c)
  {
    if q + |c| <= |s| {
      assert s[q..q + |c|][0] == '-';
    }
  }

  /** Inside a token, a category matches exactly where it is the token's
      category prefix. */
  lemma CategoriesAtToken(pre: string, t: string, rest: string, k: nat, cats: seq<string>)
    requires NoSpace(t) && k <= |t|
    requires rest == [] || IsSpace(rest[0])
    requires forall c :: c in cats ==> IsCategoryName(c)
    ensures forall c :: c in cats ==> (CategoryAt(pre + t + rest, |pre| + k, c) <==> HasCategoryPrefix(t[k..], c))
  {
    forall c | c in cats ensures CategoryAt(pre + t + rest, |pre| + k, c) <==> HasCategoryPrefix(t[k..], c) {
      CategoryAtToken(pre, t, rest, k, c);
    }
  }

  /** The category the regex picks inside a token is its category prefix. */
  lemma LongestInToken(pre: string, t: string, rest: string, k: nat, cats: seq<string>)
    requires NoSpace(t) && k <= |t|
    requires rest == [] || IsSpace(rest[0])
    requires forall c :: c in cats ==> IsCategoryName(c)
    ensures LongestCategoryAt(pre + t + rest, |pre| + k, cats).Some?
        <==> exists c :: c in cats && HasCategoryPrefix(t[k..], c)
    ensures forall c :: c in cats && HasCategoryPrefix(t[k..], c) ==>
              LongestCategoryAt(pre + t + rest, |pre| + k, cats) == Some(|c|)
  {
    var s := pre + t + rest;
    var q := |pre| + k;
    var u := t[k..];
    CategoriesAtToken(pre, t, rest, k, cats);
    LongestCategoryAtSpec(s, q, cats);
    var r := LongestCategoryAt(s, q, cats);
    if r.Some? {
      var d :| d in cats && |d| == r.value && CategoryAt(s, q, d);
      assert HasCategoryPrefix(u, d);
      forall c | c in cats && HasCategoryPrefix(u, c) ensures r == Some(|c|) {
        CategoryPrefixLength(u, c, d);
      }
    } else {
      assert forall c :: c in cats ==> !HasCategoryPrefix(u, c);
    }
  }

  lemma StripTokenNegated(t: string, c: string, cats: seq<string>)
    requires |t| > 0 && t[0] == '-' && c in cats && HasCategoryPrefix(t[1..], c)
    requires forall c :: c in cats ==> IsCategoryName(c)
    ensures StripToken(t, cats) == ['-'] + t[|c| + 2..]
  {
    var d :| d in cats && HasCategoryPrefix(t[1..], d) && StripToken(t, cats) == ['-'] + t[|d| + 2..];
    CategoryPrefixLength(t[1..], c, d);
  }

  lemma StripTokenPlain(t: string, c: string, cats: seq<string>)
    requires !(|t| > 0 && t[0] == '-')
    requires c in cats && HasCategoryPrefix(t, c)
    requires forall c :: c in cats ==> IsCategoryName(c)
    ensures StripToken(t, cats) == t[|c| + 1..]
  {
    var d :| d in cats && HasCategoryPrefix(t, d) && StripToken(t, cats) == t[|d| + 1..];
    CategoryPrefixLength(t, c, d);
  }

  lemma StripTokenDashOnly(t: string, cats: seq<string>)
    requires |t| > 0 && t[0] == '-'
    requires !exists c :: c in cats && HasCategoryPrefix(t[1..], c)
    requires forall c :: c in cats ==> IsCategoryName(c)
    ensures StripToken(t, cats) == t
  {
    forall c | c in cats ensures !HasCategoryPrefix(t, c) {
      if |c| <= |t| {
        assert t[..|c|][0] == '-';
      }
    }
  }

  /** Away from a line start, a character that is no space is copied and the
      scan goes on, still away from a line start. */
  lemma StripWordChar(x: char, tail: string, cats: seq<string>)
    requires !IsSpace(x)
    ensures Strip(NewlineSyntax, [x] + tail, false, cats) == [x] + Strip(NewlineSyntax, tail, false, cats)
  {
    var s := [x] + tail;
    assert s[0] == x && s[1..] == tail;
    assert MatchAt(NewlineSyntax, s, false, cats).None?;
  }

  /** A scan that copies each character that is no space and goes on copies a
      whole word. */
  lemma {:induction false} CopiesWord(scan: string -> string, u: string, rest: string)
    requires NoSpace(u)
    requires forall x, tail :: !IsSpace(x) ==> scan([x] + tail) == [x] + scan(tail)
    ensures scan(u + rest) == u + scan(rest)
    decreases |u|
  {
    if u == [] {
      assert u + rest == rest;
    } else {
      var tail := u[1..];
      assert u + rest == [u[0]] + (tail + rest);
      CopiesWord(scan, tail, rest);
      assert [u[0]] + tail == u;
    }
  }

  /** Without a space or a newline, nothing in `u` can start a match. */
  lemma StripPassesWord(u: string, rest: string, cats: seq<string>)
    requires NoSpace(u)
    ensures Strip(NewlineSyntax, u + rest, false, cats) == u + Strip(NewlineSyntax, rest, false, cats)
  {
    var scan := s => Strip(NewlineSyntax, s, false, cats);
    forall x, tail | !IsSpace(x) ensures scan([x] + tail) == [x] + scan(tail) {
      StripWordChar(x, tail, cats);
    }
    CopiesWord(scan, u, rest);
  }

  /** A negated token with a category prefix: the match starts after the dash. */
  lemma MatchNegated(pre: string, bol: bool, t: string, rest: string, c: string, cats: seq<string>)
    requires (pre == [] && bol) || (pre == [' '] && !bol)
    requires t != [] && NoSpace(t) && t[0] == '-'
    requires rest == [] || rest[0] == ' '
    requires forall c :: c in cats ==> IsCategoryName(c)
    requires c in cats && HasCategoryPrefix(t[1..], c)
    ensures MatchAt(NewlineSyntax, pre + t + rest, bol, cats) == Some((|pre| + 1, |c|))
  {
    var s := pre + t + rest;
    LongestInToken(pre, t, rest, 1, cats);
    if pre == [' '] {
      assert s[0] == ' ' && s[1] == t[0];
    } else {
      assert s[0] == t[0];
    }
  }

  /** A token with a category prefix and no dash: the match starts at the token. */
  lemma MatchPlain(pre: string, bol: bool, t: string, rest: string, c: string, cats: seq<string>)
    requires (pre == [] && bol) || (pre == [' '] && !bol)
    requires t != [] && NoSpace(t) && t[0] != '-'
    requires rest == [] || rest[0] == ' '
    requires forall c :: c in cats ==> IsCategoryName(c)
    requires c in cats && HasCategoryPrefix(t, c)
    ensures MatchAt(NewlineSyntax, pre + t + rest, bol, cats) == Some((|pre|, |c|))
  {
    var s := pre + t + rest;
    LongestInToken(pre, t, rest, 0, cats);
    assert t[0..] == t;
    if pre == [' '] {
      assert s[0] == ' ' && s[1] == t[0];
    } else {
      assert s[0] == t[0] && s[0] != ' ';
    }
  }

  /** A token without a category prefix: no category starts at its head, nor
      after its `-`. */
  lemma NoCategoryAtHead(pre: string, t: string, rest: string, cats: seq<string>)
    requires t != [] && NoSpace(t)
    requires rest == [] || rest[0] == ' '
    requires forall c :: c in cats ==> IsCategoryName(c)
    requires t[0] == '-' ==> !exists c :: c in cats && HasCategoryPrefix(t[1..], c)
    requires t[0] != '-' ==> !exists c :: c in cats && HasCategoryPrefix(t, c)
    ensures LongestCategoryAt(pre + t + rest, |pre|, cats).None?
    ensures t[0] == '-' ==> LongestCategoryAt(pre + t + rest, |pre| + 1, cats).None?
  {
    var s := pre + t + rest;
    assert s[|pre|] == t[0];
    if t[0] == '-' {
      LongestInToken(pre, t, rest, 1, cats);
      LongestCategoryAtSpec(s, |pre|, cats);
      forall c | c in cats ensures !CategoryAt(s, |pre|, c) {
        NotCategoryAtDash(s, |pre|, c);
      }
    } else {
      LongestInToken(pre, t, rest, 0, cats);
      assert t[0..] == t;
    }
  }

  /** A token without a category prefix: no match at its head. */
  lemma MatchNone(pre: string, bol: bool, t: string, rest: string, cats: seq<string>)
    requires (pre == [] && bol) || (pre == [' '] && !bol)
    requires t != [] && NoSpace(t)
    requires rest == [] || rest[0] == ' '
    requires forall c :: c in cats ==> IsCategoryName(c)
    requires t[0] == '-' ==> !exists c :: c in cats && HasCategoryPrefix(t[1..], c)
    requires t[0] != '-' ==> !exists c :: c in cats && HasCategoryPrefix(t, c)
    ensures MatchAt(NewlineSyntax, pre + t + rest, bol, cats).None?
  {
    var s := pre + t + rest;
    NoCategoryAtHead(pre, t, rest, cats);
    if pre == [' '] {
      assert s[0] == ' ' && s[1] == t[0];
      assert LongestCategoryAt(s, 1, cats).None?;
    } else {
      assert s[0] == t[0] && s[0] != ' ';
      assert LongestCategoryAt(s, 0, cats).None?;
    }
  }

  /** One step of the scan at a match. */
  lemma StripAtMatch(syntax: Syntax, s: string, bol: bool, cats: seq<string>, q: nat, n: nat)
    requires MatchAt(syntax, s, bol, cats) == Some((q, n))
    ensures q + n + 2 <= |s|
    ensures Strip(syntax, s, bol, cats) == s[..q] + [s[q + n + 1]] + Strip(syntax, s[q + n + 2..], false, cats)
  {
  }

  /** One step of the scan where nothing matches. */
  lemma StripNoMatch(syntax: Syntax, s: string, bol: bool, cats: seq<string>)
    requires s != [] && MatchAt(syntax, s, bol, cats).None?
    ensures Strip(syntax, s, bol, cats) == [s[0]] + Strip(syntax, s[1..], s[0] == '\n', cats)
  {
  }

  /** Reassembling the output around a token whose first `k` characters stay,
      whose next `n + 1` are dropped and whose rest is copied. */
  lemma SpliceToken(pre: string, t: string, rest: string, k: nat, n: nat, y: string)
    requires k + n + 1 < |t|
    ensures (pre + t + rest)[..|pre| + k] + [(pre + t + rest)[|pre| + k + n + 1]] + (t[k + n + 2..] + y)
         == pre + (t[..k] + t[k + n + 1..]) + y
    ensures (pre + t + rest)[|pre| + k + n + 2..] == t[k + n + 2..] + rest
  {
    var s := pre + t + rest;
    var p := |pre|;
    assert s[..p + k] == pre + t[..k];
    assert s[p + k + n + 1] == t[k + n + 1];
    assert t[k + n + 1..] == [t[k + n + 1]] + t[k + n + 2..];
    assert s[p + k + n + 2..] == t[k + n + 2..] + rest;
  }

  /** At a match inside a token: the category and its colon are cut out of
      the token, and the scan goes on after the token. */
  lemma StripBeforeCut(pre: string, bol: bool, t: string, rest: string, k: nat, n: nat, cats: seq<string>)
    requires k + n + 1 < |t| && NoSpace(t)
    requires MatchAt(NewlineSyntax, pre + t + rest, bol, cats) == Some((|pre| + k, n))
    ensures Strip(NewlineSyntax, pre + t + rest, bol, cats)
         == pre + (t[..k] + t[k + n + 1..]) + Strip(NewlineSyntax, rest, false, cats)
  {
    var s := pre + t + rest;
    var q := |pre| + k;
    var tail := t[k + n + 2..];
    var y := Strip(NewlineSyntax, rest, false, cats);
    StripPassesWord(tail, rest, cats);
    SpliceToken(pre, t, rest, k, n, y);
    StripAtMatch(NewlineSyntax, s, bol, cats, q, n);
    assert Strip(NewlineSyntax, s[q + n + 2..], false, cats) == tail + y;
  }

  lemma StripBeforeBare(pre: string, bol: bool, t: string, rest: string, cats: seq<string>)
    requires (pre == [] && bol) || (pre == [' '] && !bol)
    requires t != [] && NoSpace(t)
    requires StripToken(t, cats) == t
    requires MatchAt(NewlineSyntax, pre + t + rest, bol, cats).None?
    ensures Strip(NewlineSyntax, pre + t + rest, bol, cats)
         == pre + StripToken(t, cats) + Strip(NewlineSyntax, rest, false, cats)
  {
    var s := pre + t + rest;
    StripNoMatch(NewlineSyntax, s, bol, cats);
    if pre == [] {
      assert s[0] == t[0] && s[1..] == t[1..] + rest;
      StripPassesWord(t[1..], rest, cats);
      SeqAssoc([t[0]], t[1..], Strip(NewlineSyntax, rest, false, cats));
      assert [t[0]] + t[1..] == t;
      SeqEmptyPrefix(t);
    } else {
      assert s[0] == ' ' && s[1..] == t + rest;
      StripPassesWord(t, rest, cats);
      SeqAssoc([' '], t, Strip(NewlineSyntax, rest, false, cats));
    }
  }

  lemma StripBeforeNegated(pre: string, bol: bool, t: string, rest: string, c: string, cats: seq<string>)
    requires (pre == [] && bol) || (pre == [' '] && !bol)
    requires t != [] && NoSpace(t) && t[0] == '-'
    requires rest == [] || rest[0] == ' '
    requires forall c :: c in cats ==> IsCategoryName(c)
    requires c in cats && HasCategoryPrefix(t[1..], c)
    ensures Strip(NewlineSyntax, pre + t + rest, bol, cats)
         == pre + StripToken(t, cats) + Strip(NewlineSyntax, rest, false, cats)
  {
    MatchNegated(pre, bol, t, rest, c, cats);
    StripTokenNegated(t, c, cats);
    StripBeforeCut(pre, bol, t, rest, 1, |c|, cats);
    assert t[..1] == ['-'];
  }

  lemma StripBeforePlain(pre: string, bol: bool, t: string, rest: string, c: string, cats: seq<string>)
    requires (pre == [] && bol) || (pre == [' '] && !bol)
    requires t != [] && NoSpace(t) && t[0] != '-'
    requires rest == [] || rest[0] == ' '
    requires forall c :: c in cats ==> IsCategoryName(c)
    requires c in cats && HasCategoryPrefix(t, c)
    ensures Strip(NewlineSyntax, pre + t + rest, bol, cats)
         == pre + StripToken(t, cats) + Strip(NewlineSyntax, rest, false, cats)
  {
    var u := t[|c| + 1..];
    assert t[..0] + u == u;
    MatchPlain(pre, bol, t, rest, c, cats);
    StripBeforeCut(pre, bol, t, rest, 0, |c|, cats);
    StripTokenPlain(t, c, cats);
  }

  lemma StripBeforeUnprefixed(pre: string, bol: bool, t: string, rest: string, cats: seq<string>)
    requires (pre == [] && bol) || (pre == [' '] && !bol)
    requires t != [] && NoSpace(t)
    requires rest == [] || rest[0] == ' '
    requires forall c :: c in cats ==> IsCategoryName(c)
    requires t[0] == '-' ==> !exists c :: c in cats && HasCategoryPrefix(t[1..], c)
    requires t[0] != '-' ==> !exists c :: c in cats && HasCategoryPrefix(t, c)
    ensures Strip(NewlineSyntax, pre + t + rest, bol, cats)
         == pre + StripToken(t, cats) + Strip(NewlineSyntax, rest, false, cats)
  {
    MatchNone(pre, bol, t, rest, cats);
    if t[0] == '-' {
      StripTokenDashOnly(t, cats);
    }
    StripBeforeBare(pre, bol, t, rest, cats);
  }

  /** A token at the start of a line, or after one space, loses its category
      prefix; what follows it is scanned on. */
  lemma StripBeforeToken(pre: string, bol: bool, t: string, rest: string, cats: seq<string>)
    requires (pre == [] && bol) || (pre == [' '] && !bol)
    requires t != [] && NoSpace(t)
    requires rest == [] || rest[0] == ' '
    requires forall c :: c in cats ==> IsCategoryName(c)
    ensures Strip(NewlineSyntax, pre + t + rest, bol, cats)
         == pre + StripToken(t, cats) + Strip(NewlineSyntax, rest, false, cats)
  {
    if t[0] == '-' && exists c :: c in cats && HasCategoryPrefix(t[1..], c) {
      var c :| c in cats && HasCategoryPrefix(t[1..], c);
      StripBeforeNegated(pre, bol, t, rest, c, cats);
    } else if t[0] != '-' && exists c :: c in cats && HasCategoryPrefix(t, c) {
      var c :| c in cats && HasCategoryPrefix(t, c);
      StripBeforePlain(pre, bol, t, rest, c, cats);
    } else {
      StripBeforeUnprefixed(pre, bol, t, rest, cats);
    }
  }

  ghost function StripTokens(ts: seq<string>, cats: seq<string>): seq<string>
  {
    seq(|ts|, i requires 0 <= i < |ts| => StripToken(ts[i], cats))
  }

  lemma StripTokensCons(ts: seq<string>, cats: seq<string>)
    requires ts != []
    ensures |StripTokens(ts, cats)| == |ts|
    ensures StripTokens(ts, cats)[0] == StripToken(ts[0], cats)
    ensures StripTokens(ts, cats)[1..] == StripTokens(ts[1..], cats)
  {
  }

  lemma SeqAssoc(x: string, y: string, z: string)
    ensures x + (y + z) == x + y + z
  {
  }

  lemma SeqEmptyPrefix(x: string)
    ensures [] + x == x
  {
  }

  /** A space-separated line of tokens: the first token, then a space and the rest. */
  lemma JoinCons(ts: seq<string>)
    requires |ts| > 1
    ensures Join(ts, ' ') == ts[0] + ([' '] + Join(ts[1..], ' '))
  {
  }

  lemma {:induction false} StripSpacedTokens(ts: seq<string>, cats: seq<string>)
    requires ts != []
    requires forall t :: t in ts ==> t != [] && NoSpace(t)
    requires forall c :: c in cats ==> IsCategoryName(c)
    ensures Strip(NewlineSyntax, [' '] + Join(ts, ' '), false, cats) == [' '] + Join(StripTokens(ts, cats), ' ')
    decreases |ts|
  {
    assert ts[0] in ts;
    StripTokensCons(ts, cats);
    var st := StripTokens(ts, cats);
    if |ts| == 1 {
      StripBeforeToken([' '], false, ts[0], [], cats);
      assert [' '] + ts[0] + [] == [' '] + Join(ts, ' ');
      assert Join(st, ' ') == st[0];
    } else {
      var tail := [' '] + Join(ts[1..], ' ');
      JoinCons(ts);
      JoinCons(st);
      SeqAssoc([' '], ts[0], tail);
      StripBeforeToken([' '], false, ts[0], tail, cats);
      assert forall t :: t in ts[1..] ==> t in ts;
      StripSpacedTokens(ts[1..], cats);
      SeqAssoc([' '], st[0], Strip(NewlineSyntax, tail, false, cats));
    }
  }

  lemma StripLineMany(ts: seq<string>, cats: seq<string>)
    requires |ts| > 1
    requires forall t :: t in ts ==> t != [] && NoSpace(t)
    requires forall c :: c in cats ==> IsCategoryName(c)
    ensures Strip(NewlineSyntax, Join(ts, ' '), true, cats) == Join(StripTokens(ts, cats), ' ')
  {
    assert ts[0] in ts;
    assert forall t :: t in ts[1..] ==> t in ts;
    StripTokensCons(ts, cats);
    var st := StripTokens(ts, cats);
    var tail := [' '] + Join(ts[1..], ' ');
    JoinCons(ts);
    JoinCons(st);
    SeqEmptyPrefix(ts[0]);
    StripBeforeToken([], true, ts[0], tail, cats);
    StripSpacedTokens(ts[1..], cats);
    SeqEmptyPrefix(st[0]);
  }

  /** On one line of tokens separated by single spaces, the newline-syntax
      substitution strips every token separately. */
  lemma StripLine(ts: seq<string>, cats: seq<string>)
    requires forall t :: t in ts ==> t != [] && NoSpace(t)
    requires forall c :: c in cats ==> IsCategoryName(c)
    ensures Strip(NewlineSyntax, Join(ts, ' '), true, cats) == Join(StripTokens(ts, cats), ' ')
  {
    if |ts| == 1 {
      assert ts[0] in ts;
      StripTokensCons(ts, cats);
      StripBeforeToken([], true, ts[0], [], cats);
      assert [] + ts[0] + [] == Join(ts, ' ');
    } else if |ts| > 1 {
      StripLineMany(ts, cats);
    }
  }

  /** The comma-syntax pass changes nothing in a text without ", ". */
  lemma {:induction false} StripCommaWithoutComma(s: string, bol: bool, cats: seq<string>)
    requires forall i :: 0 <= i < |s| - 1 ==> !(s[i] == ',' && s[i + 1] == ' ')
    ensures Strip(CommaSyntax, s, bol, cats) == s
    decreases |s|
  {
    if s != [] {
      StripNoMatch(CommaSyntax, s, bol, cats);
      StripCommaWithoutComma(s[1..], s[0] == '\n', cats);
      assert [s[0]] + s[1..] == s;
    }
  }

  /** A line of tokens, none holding a comma: both substitutions together
      strip every token separately, e.g. `-artist:foo general:bar` becomes
      `-foo bar`. */
  lemma StripCategoriesOfCommaFreeLine(ts: seq<string>, cats: seq<string>)
    requires forall t :: t in ts ==> t != [] && NoSpace(t) && ',' !in t
    requires forall c :: c in cats ==> IsCategoryName(c)
    ensures StripCategories(Join(ts, ' '), cats) == Join(StripTokens(ts, cats), ' ')
  {
    StripLine(ts, cats);
    var st := StripTokens(ts, cats);
    forall u | u in st ensures ',' !in u {
      var k :| 0 <= k < |st| && st[k] == u;
      assert ts[k] in ts;
      StripTokenSuffix(ts[k], cats);
    }
    JoinWithout(st, ' ', ',');
    StripCommaWithoutComma(Join(st, ' '), true, cats);
  }

  lemma StripArtistBar()
    ensures StripToken("artist:bar", ["artist"]) == "bar"
  {
    assert HasCategoryPrefix("artist:bar", "artist");
    StripTokenPlain("artist:bar", "artist", ["artist"]);
  }

  lemma StripTwiceTokens()
    ensures StripTokens(["foo,", "artist:artist:bar"], ["artist"]) == ["foo,", "artist:bar"]
  {
    assert !HasCategoryPrefix("foo,", "artist");
    assert HasCategoryPrefix("artist:artist:bar", "artist");
    StripTokenPlain("artist:artist:bar", "artist", ["artist"]);
  }

  lemma StripTwiceComma()
    ensures CommaStripTokens(["foo,", "artist:bar"], false, ["artist"]) == ["foo,", "bar"]
  {
    StripArtistBar();
    var ts := ["foo,", "artist:bar"];
    assert ts[1..] == ["artist:bar"];
    assert CommaStripTokens(ts[1..], true, ["artist"]) == ["bar"];
  }

  lemma TwiceLine()
    ensures Join(["foo,", "artist:artist:bar"], ' ') == "foo, artist:artist:bar"
    ensures forall t :: t in ["foo,", "artist:artist:bar"] ==> t != [] && NoSpace(t)
  {
  }

  lemma TwiceResult()
    ensures Join(["foo,", "bar"], ' ') == "foo, bar"
  {
  }

  /** The comma pass strips again what the newline pass left:
      `foo, artist:artist:bar` becomes `foo, bar`. */
  lemma StripCategoriesTwice()
    ensures StripCategories("foo, artist:artist:bar", ["artist"]) == "foo, bar"
  {
    TwiceLine();
    StripCategoriesOfLine(["foo,", "artist:artist:bar"], ["artist"]);
    StripTwiceTokens();
    StripTwiceComma();
    TwiceResult();
  }

  /** Stripping leaves a token's characters after a possible leading dash. */
  lemma StripTokenSuffix(t: string, cats: seq<string>)
    requires forall c :: c in cats ==> IsCategoryName(c)
    ensures forall x :: x in StripToken(t, cats) ==> x in t
  {
  }

  lemma {:induction false} JoinWithout(ws: seq<string>, sep: char, x: char)
    requires x != sep
    requires forall w :: w in ws ==> x !in w
    ensures x !in Join(ws, sep)
    decreases |ws|
  {
    if |ws| > 1 {
      assert ws[0] in ws;
      assert forall w :: w in ws[1..] ==> w in ws;
      JoinWithout(ws[1..], sep, x);
    } else if |ws| == 1 {
      assert ws[0] in ws;
    }
  }

  // ---------------------------------------------------------------------
  // The comma-syntax pass over a line of tokens

  /** The tail of a space-separated line: a space before each token. */
  function Spaced(ts: seq<string>): string
    decreases |ts|
  {
    if ts == [] then [] else [' '] + ts[0] + Spaced(ts[1..])
  }

  lemma SpacedCons(u: string, cs: seq<string>)
    ensures Spaced([u] + cs) == [' '] + (u + Spaced(cs))
  {
    assert ([u] + cs)[1..] == cs;
  }

  lemma SpacedHead(ts: seq<string>)
    requires ts != []
    ensures Spaced(ts) == [' '] + (ts[0] + Spaced(ts[1..]))
    ensures [','] + Spaced(ts) == [',', ' '] + ts[0] + Spaced(ts[1..])
  {
  }

  lemma {:induction false} JoinSpaced(ts: seq<string>)
    requires ts != []
    ensures Join(ts, ' ') == ts[0] + Spaced(ts[1..])
    decreases |ts|
  {
    if |ts| == 1 {
      assert Spaced(ts[1..]) == [];
      assert ts[0] + [] == ts[0];
    } else {
      JoinSpaced(ts[1..]);
      assert ts[1..][1..] == ts[2..];
      SeqAssoc(ts[0], [' '], Join(ts[1..], ' '));
    }
  }

  /** What the comma-syntax pass does to the tokens of a line: a token right
      after a token ending in `,` loses its category prefix, unless the match
      in that token kept its comma as the character after a colon (`a:,`
      stripped to `,`), which leaves no comma for the next match. `after`
      says the token before ends in a comma a match can start at. */
  ghost function CommaStripTokens(ts: seq<string>, after: bool, cats: seq<string>): seq<string>
    decreases |ts|
  {
    if ts == [] then []
    else
      var t := ts[0];
      var u := if after then StripToken(t, cats) else t;
      var consumed := after && u != t && |u| == (if |t| > 0 && t[0] == '-' then 2 else 1);
      [u] + CommaStripTokens(ts[1..], |t| > 0 && t[|t| - 1] == ',' && !consumed, cats)
  }

  lemma CommaStripTokensPlain(ts: seq<string>, cats: seq<string>)
    requires ts != [] && ts[0] != []
    ensures CommaStripTokens(ts, false, cats)
         == [ts[0]] + CommaStripTokens(ts[1..], ts[0][|ts[0]| - 1] == ',', cats)
  {
  }

  lemma CommaStripTokensKept(ts: seq<string>, cats: seq<string>)
    requires ts != [] && ts[0] != [] && StripToken(ts[0], cats) == ts[0]
    ensures CommaStripTokens(ts, true, cats) == CommaStripTokens(ts, false, cats)
  {
  }

  lemma CommaStripTokensCut(ts: seq<string>, k: nat, cats: seq<string>)
    requires ts != [] && ts[0] != [] && k == (if ts[0][0] == '-' then 1 else 0)
    requires |StripToken(ts[0], cats)| < |ts[0]|
    ensures CommaStripTokens(ts, true, cats)
         == [StripToken(ts[0], cats)] +
            CommaStripTokens(ts[1..], ts[0][|ts[0]| - 1] == ',' && |StripToken(ts[0], cats)| != k + 1, cats)
  {
  }

  /** The comma-syntax pattern does not look at line starts. */
  lemma {:induction false} CommaIgnoresBol(s: string, bol: bool, cats: seq<string>)
    ensures Strip(CommaSyntax, s, bol, cats) == Strip(CommaSyntax, s, false, cats)
  {
    assert MatchAt(CommaSyntax, s, bol, cats) == MatchAt(CommaSyntax, s, false, cats);
  }

  /** Inside a word followed by no space, no `, ` can start a match. */
  lemma {:induction false} CommaPassesWord(u: string, rest: string, bol: bool, cats: seq<string>)
    requires NoSpace(u)
    requires rest != [] && !IsSpace(rest[0])
    ensures Strip(CommaSyntax, u + rest, bol, cats) == u + Strip(CommaSyntax, rest, false, cats)
    decreases |u|
  {
    if u == [] {
      assert u + rest == rest;
      CommaIgnoresBol(rest, bol, cats);
    } else {
      var s := u + rest;
      assert s[1] == (if |u| > 1 then u[1] else rest[0]);
      StripNoMatch(CommaSyntax, s, bol, cats);
      assert s[1..] == u[1..] + rest;
      CommaPassesWord(u[1..], rest, u[0] == '\n', cats);
      SeqAssoc([u[0]], u[1..], Strip(CommaSyntax, rest, false, cats));
      assert [u[0]] + u[1..] == u;
    }
  }

  /** A token is copied up to its last character `z`, where a `, ` may start. */
  lemma CommaToken(t: string, rest: string, z: char, cats: seq<string>)
    requires t != [] && NoSpace(t) && z == t[|t| - 1]
    ensures Strip(CommaSyntax, t + rest, false, cats)
         == t[..|t| - 1] + Strip(CommaSyntax, [z] + rest, false, cats)
  {
    assert t + rest == t[..|t| - 1] + ([z] + rest);
    CommaPassesWord(t[..|t| - 1], [z] + rest, false, cats);
  }

  /** A space starts no match and is copied. */
  lemma CommaSpaceStep(x: string, cats: seq<string>)
    ensures Strip(CommaSyntax, [' '] + x, false, cats) == [' '] + Strip(CommaSyntax, x, false, cats)
  {
    var s := [' '] + x;
    assert s[0] == ' ' && s[1..] == x;
    StripNoMatch(CommaSyntax, s, false, cats);
  }

  /** A character where no match starts is copied. */
  lemma CommaNoMatchStep(y: char, x: string, cats: seq<string>)
    requires y != '\n' && MatchAt(CommaSyntax, [y] + x, false, cats).None?
    ensures Strip(CommaSyntax, [y] + x, false, cats) == [y] + Strip(CommaSyntax, x, false, cats)
  {
    var s := [y] + x;
    assert s[0] == y && s[1..] == x;
    StripNoMatch(CommaSyntax, s, false, cats);
  }

  /** Stripping keeps a token a non-empty word. */
  lemma StripTokenShape(t: string, cats: seq<string>)
    requires t != [] && NoSpace(t)
    requires forall c :: c in cats ==> IsCategoryName(c)
    ensures StripToken(t, cats) != [] && NoSpace(StripToken(t, cats))
  {
    StripTokenSuffix(t, cats);
    var u := StripToken(t, cats);
    forall i | 0 <= i < |u| ensures !IsSpace(u[i]) {
      assert u[i] in u;
    }
  }

  /** After `, `, a negated token with a category prefix: the match starts
      after the dash. */
  lemma CommaMatchNegated(t: string, rest: string, c: string, cats: seq<string>)
    requires t != [] && NoSpace(t) && t[0] == '-'
    requires rest == [] || rest[0] == ' '
    requires forall c :: c in cats ==> IsCategoryName(c)
    requires c in cats && HasCategoryPrefix(t[1..], c)
    ensures MatchAt(CommaSyntax, [',', ' '] + t + rest, false, cats) == Some((3, |c|))
  {
    var s := [',', ' '] + t + rest;
    LongestInToken([',', ' '], t, rest, 1, cats);
    assert s[0] == ',' && s[1] == ' ' && s[2] == '-';
  }

  /** After `, `, a token with a category prefix and no dash: the match
      starts at the token. */
  lemma CommaMatchPlain(t: string, rest: string, c: string, cats: seq<string>)
    requires t != [] && NoSpace(t) && t[0] != '-'
    requires rest == [] || rest[0] == ' '
    requires forall c :: c in cats ==> IsCategoryName(c)
    requires c in cats && HasCategoryPrefix(t, c)
    ensures MatchAt(CommaSyntax, [',', ' '] + t + rest, false, cats) == Some((2, |c|))
  {
    var s := [',', ' '] + t + rest;
    LongestInToken([',', ' '], t, rest, 0, cats);
    assert t[0..] == t;
    assert s[0] == ',' && s[1] == ' ' && s[2] == t[0];
  }

  /** The output of a match after `, ` in terms of what stays of the token:
      its first `k` characters and the one after the colon. */
  lemma CutSplice(t: string, rest: string, u: string, k: nat, n: nat, v: string, x: string, y: string)
    requires k + n + 1 < |t| && u == t[..k] + t[k + n + 1..] && v == u[k + 1..]
    requires x == ([',', ' '] + t + rest)[..2 + k] + [([',', ' '] + t + rest)[2 + k + n + 1]] + y
    ensures k + 1 <= |u| < |t| && u[|u| - 1] == t[|t| - 1]
    ensures x == [',', ' '] + u[..k + 1] + y
    ensures ([',', ' '] + t + rest)[2 + k + n + 2..] == v + rest
  {
    var s := [',', ' '] + t + rest;
    assert s[..2 + k] == [',', ' '] + t[..k];
    assert s[2 + k + n + 1] == t[k + n + 1];
    assert u[..k + 1] == t[..k] + [t[k + n + 1]];
    assert u[k + 1..] == t[k + n + 2..];
    assert s[2 + k + n + 2..] == t[k + n + 2..] + rest;
  }

  /** At a match after `, `: the category and its colon go, the character
      after the colon stays, and the scan goes on right after it. */
  lemma CommaCutToken(t: string, rest: string, u: string, k: nat, n: nat, v: string, cats: seq<string>)
    requires k + n + 1 < |t| && u == t[..k] + t[k + n + 1..] && v == u[k + 1..]
    requires MatchAt(CommaSyntax, [',', ' '] + t + rest, false, cats) == Some((2 + k, n))
    ensures k + 1 <= |u| < |t| && u[|u| - 1] == t[|t| - 1]
    ensures Strip(CommaSyntax, [',', ' '] + t + rest, false, cats)
         == [',', ' '] + u[..k + 1] + Strip(CommaSyntax, v + rest, false, cats)
  {
    var s := [',', ' '] + t + rest;
    StripAtMatch(CommaSyntax, s, false, cats, 2 + k, n);
    CutSplice(t, rest, u, k, n, v, Strip(CommaSyntax, s, false, cats),
              Strip(CommaSyntax, s[2 + k + n + 2..], false, cats));
  }

  /** The cut of a token with a category prefix after `, `, with `u` what
      stays of the token. */
  lemma CommaCutPrefixed(t: string, rest: string, u: string, k: nat, c: string, v: string, cats: seq<string>)
    requires t != [] && NoSpace(t) && k == (if t[0] == '-' then 1 else 0)
    requires rest == [] || rest[0] == ' '
    requires forall c :: c in cats ==> IsCategoryName(c)
    requires c in cats && HasCategoryPrefix(t[k..], c)
    requires u == t[..k] + t[k + |c| + 1..] && v == u[k + 1..]
    ensures k + 1 <= |u| < |t| && u[|u| - 1] == t[|t| - 1]
    ensures Strip(CommaSyntax, [',', ' '] + t + rest, false, cats)
         == [',', ' '] + u[..k + 1] + Strip(CommaSyntax, v + rest, false, cats)
  {
    if k == 1 {
      CommaMatchNegated(t, rest, c, cats);
    } else {
      assert t[k..] == t;
      CommaMatchPlain(t, rest, c, cats);
    }
    CommaCutToken(t, rest, u, k, |c|, v, cats);
  }

  /** What stays of a token with a category prefix. */
  lemma StripTokenPrefixed(t: string, k: nat, c: string, cats: seq<string>)
    requires t != [] && k == (if t[0] == '-' then 1 else 0)
    requires forall c :: c in cats ==> IsCategoryName(c)
    requires c in cats && HasCategoryPrefix(t[k..], c)
    ensures StripToken(t, cats) == t[..k] + t[k + |c| + 1..]
  {
    if k == 1 {
      StripTokenNegated(t, c, cats);
    } else {
      assert t[k..] == t;
      StripTokenPlain(t, c, cats);
    }
  }

  /** After `, `, a token without a category prefix starts no match and is
      its own stripped form. */
  lemma CommaNoMatchAt(t: string, rest: string, cats: seq<string>)
    requires t != [] && NoSpace(t)
    requires rest == [] || rest[0] == ' '
    requires forall c :: c in cats ==> IsCategoryName(c)
    requires t[0] == '-' ==> !exists c :: c in cats && HasCategoryPrefix(t[1..], c)
    requires t[0] != '-' ==> !exists c :: c in cats && HasCategoryPrefix(t, c)
    ensures MatchAt(CommaSyntax, [',', ' '] + t + rest, false, cats).None?
    ensures StripToken(t, cats) == t
  {
    var s := [',', ' '] + t + rest;
    NoCategoryAtHead([',', ' '], t, rest, cats);
    assert s[2] == t[0];
    if t[0] == '-' {
      StripTokenDashOnly(t, cats);
    }
  }

  /** Gluing a token copied up to its last character `z` to the scan from `z`. */
  lemma GlueToken(x1: string, x2: string, t: string, w: string, z: char)
    requires t != [] && z == t[|t| - 1]
    requires x1 == t[..|t| - 1] + x2 && x2 == [z] + w
    ensures x1 == t + w
  {
    assert t[..|t| - 1] + [z] == t;
  }

  /** Gluing a cut token whose kept character is its last one. */
  lemma GlueConsumed(x1: string, x2: string, u: string, k: nat, rest: string, w: string)
    requires |u| == k + 1
    requires x1 == [',', ' '] + u[..k + 1] + x2
    ensures u[k + 1..] + rest == rest
    ensures x2 == w ==> x1 == [','] + ([' '] + (u + w))
  {
    assert u[..k + 1] == u;
  }

  /** A cut token is what stays before its tail `v`, then `v` up to its last
      character `z`, then `z`. */
  lemma GlueCut(x1: string, x3: string, u: string, k: nat, v: string, z: char, w: string)
    requires k + 1 < |u| && v == u[k + 1..] && z == u[|u| - 1]
    requires x1 == [',', ' '] + u[..k + 1] + v[..|v| - 1] + x3 && x3 == [z] + w
    ensures x1 == [','] + ([' '] + (u + w))
  {
    assert u[..k + 1] + v[..|v| - 1] + [z] == u;
  }

  lemma CutTail(t: string, u: string, k: nat, n: nat, v: string)
    requires k + n + 1 < |t| && u == t[..k] + t[k + n + 1..] && NoSpace(t) && |u| != k + 1
    requires v == u[k + 1..]
    ensures k + 1 < |u| && v != [] && NoSpace(v) && v[|v| - 1] == t[|t| - 1]
  {
    assert v == t[k + n + 2..];
  }

  lemma GlueTail(x1: string, x2: string, x3: string, p: string, w: string)
    requires x1 == p + x2 && x2 == w + x3
    ensures x1 == p + w + x3
  {
  }

  /** Whatever precedes a space-free tail `v`, the scan copies `v` up to its
      last character `z`. */
  lemma CommaCopyTail(x1: string, p: string, v: string, rest: string, z: char, cats: seq<string>)
    requires v != [] && NoSpace(v) && z == v[|v| - 1]
    requires x1 == p + Strip(CommaSyntax, v + rest, false, cats)
    ensures x1 == p + v[..|v| - 1] + Strip(CommaSyntax, [z] + rest, false, cats)
  {
    CommaToken(v, rest, z, cats);
    GlueTail(x1, Strip(CommaSyntax, v + rest, false, cats), Strip(CommaSyntax, [z] + rest, false, cats), p, v[..|v| - 1]);
  }

  /** The cut of a token with a category prefix after `, `, when a tail `v`
      is left after the kept character. */
  lemma CommaCutTail(t: string, rest: string, u: string, k: nat, c: string, v: string, cats: seq<string>)
    requires t != [] && NoSpace(t) && k == (if t[0] == '-' then 1 else 0)
    requires rest == [] || rest[0] == ' '
    requires forall c :: c in cats ==> IsCategoryName(c)
    requires c in cats && HasCategoryPrefix(t[k..], c)
    requires u == t[..k] + t[k + |c| + 1..] && |u| != k + 1 && v == u[k + 1..]
    ensures k + 1 < |u| && u[|u| - 1] == t[|t| - 1]
    ensures v != [] && NoSpace(v) && v[|v| - 1] == t[|t| - 1]
    ensures Strip(CommaSyntax, [',', ' '] + t + rest, false, cats)
         == [',', ' '] + u[..k + 1] + Strip(CommaSyntax, v + rest, false, cats)
  {
    CommaCutPrefixed(t, rest, u, k, c, v, cats);
    CutTail(t, u, k, |c|, v);
  }

  /** After `, `, a token whose cut leaves a tail: the tail is copied up to
      the token's last character. */
  lemma CommaCutCopy(t: string, rest: string, u: string, k: nat, c: string, v: string, cats: seq<string>)
    requires t != [] && NoSpace(t) && k == (if t[0] == '-' then 1 else 0)
    requires rest == [] || rest[0] == ' '
    requires forall c :: c in cats ==> IsCategoryName(c)
    requires c in cats && HasCategoryPrefix(t[k..], c)
    requires u == t[..k] + t[k + |c| + 1..] && |u| != k + 1 && v == u[k + 1..]
    ensures k + 1 < |u| && u[|u| - 1] == t[|t| - 1] && v != []
    ensures Strip(CommaSyntax, [',', ' '] + t + rest, false, cats)
         == [',', ' '] + u[..k + 1] + v[..|v| - 1] + Strip(CommaSyntax, [t[|t| - 1]] + rest, false, cats)
  {
    CommaCutTail(t, rest, u, k, c, v, cats);
    CommaCopyTail(Strip(CommaSyntax, [',', ' '] + t + rest, false, cats), [',', ' '] + u[..k + 1],
                  v, rest, t[|t| - 1], cats);
  }

  /** The scan after `, ` at a token with a category prefix. */
  lemma {:induction false} CommaScanCut(ts: seq<string>, cats: seq<string>)
    requires forall t :: t in ts ==> t != [] && NoSpace(t)
    requires forall c :: c in cats ==> IsCategoryName(c)
    requires ts != [] && ts[0] != []
    requires (ts[0][0] == '-' && exists c :: c in cats && HasCategoryPrefix(ts[0][1..], c)) ||
             (ts[0][0] != '-' && exists c :: c in cats && HasCategoryPrefix(ts[0], c))
    ensures Strip(CommaSyntax, [','] + Spaced(ts), false, cats) == [','] + Spaced(CommaStripTokens(ts, true, cats))
    decreases |ts|, 1
  {
    var t := ts[0];
    assert t in ts;
    var k := if t[0] == '-' then 1 else 0;
    if k == 0 {
      assert t[k..] == t;
    }
    var c :| c in cats && HasCategoryPrefix(t[k..], c);
    StripTokenPrefixed(t, k, c, cats);
    if |StripToken(t, cats)| == k + 1 {
      CommaScanConsumed(ts, StripToken(t, cats), k, c, cats);
    } else {
      CommaScanCopied(ts, StripToken(t, cats), k, c, cats);
    }
  }

  /** The cut keeps the token's last character: the scan goes on at the
      space after the token. */
  lemma {:induction false} CommaScanConsumed(ts: seq<string>, u: string, k: nat, c: string, cats: seq<string>)
    requires forall t :: t in ts ==> t != [] && NoSpace(t)
    requires forall c :: c in cats ==> IsCategoryName(c)
    requires ts != [] && ts[0] != [] && NoSpace(ts[0]) && k == (if ts[0][0] == '-' then 1 else 0)
    requires c in cats && HasCategoryPrefix(ts[0][k..], c)
    requires u == StripToken(ts[0], cats) && u == ts[0][..k] + ts[0][k + |c| + 1..] && |u| == k + 1
    ensures Strip(CommaSyntax, [','] + Spaced(ts), false, cats) == [','] + Spaced(CommaStripTokens(ts, true, cats))
    decreases |ts|, 0
  {
    var t := ts[0];
    var rest := Spaced(ts[1..]);
    assert forall x :: x in ts[1..] ==> x in ts;
    SpacedHead(ts);
    CommaCutPrefixed(t, rest, u, k, c, u[k + 1..], cats);
    CommaStripTokensCut(ts, k, cats);
    var cs := CommaStripTokens(ts[1..], false, cats);
    GlueConsumed(Strip(CommaSyntax, [',', ' '] + t + rest, false, cats),
                 Strip(CommaSyntax, u[k + 1..] + rest, false, cats), u, k, rest, Spaced(cs));
    CommaScanSpaced(ts[1..], cats);
    SpacedCons(u, cs);
  }

  /** The first token of the line after `, ` when its cut leaves a tail:
      everything of it up to its last character `z` is out, and the scan
      stands at `z`. */
  lemma CommaCopiedHead(ts: seq<string>, u: string, k: nat, c: string, v: string, z: char, cats: seq<string>)
    requires forall c :: c in cats ==> IsCategoryName(c)
    requires ts != [] && ts[0] != [] && NoSpace(ts[0]) && k == (if ts[0][0] == '-' then 1 else 0)
    requires ts[1..] == [] || ts[1] != []
    requires c in cats && HasCategoryPrefix(ts[0][k..], c)
    requires u == StripToken(ts[0], cats) && u == ts[0][..k] + ts[0][k + |c| + 1..] && |u| != k + 1
    requires z == ts[0][|ts[0]| - 1] && v == u[k + 1..]
    ensures k + 1 < |u| && z == u[|u| - 1] && v != []
    ensures Strip(CommaSyntax, [','] + Spaced(ts), false, cats)
         == [',', ' '] + u[..k + 1] + v[..|v| - 1] + Strip(CommaSyntax, [z] + Spaced(ts[1..]), false, cats)
    ensures CommaStripTokens(ts, true, cats) == [u] + CommaStripTokens(ts[1..], z == ',', cats)
  {
    SpacedHead(ts);
    CommaCutCopy(ts[0], Spaced(ts[1..]), u, k, c, v, cats);
    CommaStripTokensCut(ts, k, cats);
  }

  /** The cut leaves part of the token after the kept character: it is copied
      up to its last character. */
  lemma {:induction false} CommaScanCopied(ts: seq<string>, u: string, k: nat, c: string, cats: seq<string>)
    requires forall t :: t in ts ==> t != [] && NoSpace(t)
    requires forall c :: c in cats ==> IsCategoryName(c)
    requires ts != [] && ts[0] != [] && NoSpace(ts[0]) && k == (if ts[0][0] == '-' then 1 else 0)
    requires c in cats && HasCategoryPrefix(ts[0][k..], c)
    requires u == StripToken(ts[0], cats) && u == ts[0][..k] + ts[0][k + |c| + 1..] && |u| != k + 1
    ensures Strip(CommaSyntax, [','] + Spaced(ts), false, cats) == [','] + Spaced(CommaStripTokens(ts, true, cats))
    decreases |ts|, 0
  {
    var z := ts[0][|ts[0]| - 1];
    assert forall x :: x in ts[1..] ==> x in ts;
    if ts[1..] != [] {
      assert ts[1] in ts;
    }
    var v := u[k + 1..];
    CommaCopiedHead(ts, u, k, c, v, z, cats);
    CommaScan(z, ts[1..], cats);
    var cs := CommaStripTokens(ts[1..], z == ',', cats);
    GlueCut(Strip(CommaSyntax, [','] + Spaced(ts), false, cats), Strip(CommaSyntax, [z] + Spaced(ts[1..]), false, cats),
            u, k, v, z, Spaced(cs));
    SpacedCons(u, cs);
  }

  /** The scan standing just after the last character `y` of a token, with
      the rest of the line ahead of it. */
  lemma {:induction false} CommaScan(y: char, ts: seq<string>, cats: seq<string>)
    requires !IsSpace(y)
    requires forall t :: t in ts ==> t != [] && NoSpace(t)
    requires forall c :: c in cats ==> IsCategoryName(c)
    ensures Strip(CommaSyntax, [y] + Spaced(ts), false, cats) == [y] + Spaced(CommaStripTokens(ts, y == ',', cats))
    decreases |ts|, 2
  {
    if ts == [] {
      assert [y] + Spaced(ts) == [y] + [];
      CommaNoMatchStep(y, [], cats);
    } else {
      var t := ts[0];
      assert t in ts;
      if y == ',' && ((t[0] == '-' && exists c :: c in cats && HasCategoryPrefix(t[1..], c)) ||
                      (t[0] != '-' && exists c :: c in cats && HasCategoryPrefix(t, c))) {
        CommaScanCut(ts, cats);
      } else {
        SpacedHead(ts);
        if y == ',' {
          CommaNoMatchAt(t, Spaced(ts[1..]), cats);
          CommaStripTokensKept(ts, cats);
        }
        CommaNoMatchStep(y, Spaced(ts), cats);
        CommaScanSpaced(ts, cats);
      }
    }
  }

  /** The scan standing at the space before a token. */
  lemma {:induction false} CommaScanSpaced(ts: seq<string>, cats: seq<string>)
    requires forall t :: t in ts ==> t != [] && NoSpace(t)
    requires forall c :: c in cats ==> IsCategoryName(c)
    ensures Strip(CommaSyntax, Spaced(ts), false, cats) == Spaced(CommaStripTokens(ts, false, cats))
    decreases |ts|, 1
  {
    if ts != [] {
      var t := ts[0];
      var rest := Spaced(ts[1..]);
      assert t in ts;
      assert forall x :: x in ts[1..] ==> x in ts;
      SpacedHead(ts);
      CommaSpaceStep(t + rest, cats);
      var y := t[|t| - 1];
      CommaToken(t, rest, y, cats);
      CommaScan(y, ts[1..], cats);
      var cs := CommaStripTokens(ts[1..], y == ',', cats);
      GlueToken(Strip(CommaSyntax, t + rest, false, cats), Strip(CommaSyntax, [y] + rest, false, cats), t, Spaced(cs), y);
      CommaStripTokensPlain(ts, cats);
      SpacedCons(t, cs);
    }
  }

  /** On a line of tokens separated by single spaces, the comma-syntax pass
      strips as `CommaStripTokens` says from the line start. */
  lemma CommaStripLine(ts: seq<string>, cats: seq<string>)
    requires forall t :: t in ts ==> t != [] && NoSpace(t)
    requires forall c :: c in cats ==> IsCategoryName(c)
    ensures Strip(CommaSyntax, Join(ts, ' '), true, cats) == Join(CommaStripTokens(ts, false, cats), ' ')
  {
    if ts != [] {
      var t := ts[0];
      var rest := Spaced(ts[1..]);
      assert t in ts;
      assert forall x :: x in ts[1..] ==> x in ts;
      JoinSpaced(ts);
      CommaIgnoresBol(t + rest, true, cats);
      var y := t[|t| - 1];
      CommaToken(t, rest, y, cats);
      CommaScan(y, ts[1..], cats);
      var cs := CommaStripTokens(ts[1..], y == ',', cats);
      GlueToken(Strip(CommaSyntax, t + rest, false, cats), Strip(CommaSyntax, [y] + rest, false, cats), t, Spaced(cs), y);
      CommaStripTokensPlain(ts, cats);
      JoinSpaced([t] + cs);
      assert ([t] + cs)[1..] == cs;
    }
  }

  /** On a line of tokens separated by single spaces, both substitutions
      together strip every token once, then once more each token that
      follows a comma the scan can match at: `foo, artist:artist:bar`
      becomes `foo, bar`. */
  lemma StripCategoriesOfLine(ts: seq<string>, cats: seq<string>)
    requires forall t :: t in ts ==> t != [] && NoSpace(t)
    requires forall c :: c in cats ==> IsCategoryName(c)
    ensures StripCategories(Join(ts, ' '), cats)
         == Join(CommaStripTokens(StripTokens(ts, cats), false, cats), ' ')
  {
    StripLine(ts, cats);
    var st := StripTokens(ts, cats);
    forall u | u in st ensures u != [] && NoSpace(u) {
      var k :| 0 <= k < |st| && st[k] == u;
      assert ts[k] in ts;
      StripTokenShape(ts[k], cats);
    }
    CommaStripLine(st, cats);
  }

  // ---------------------------------------------------------------------
  // `to_aliased_query`

  predicate IsNegated(x: string) {
    |x| > 0 && x[0] == '-'
  }

  /** The tag name of a query token: without its leading `-`. */
  function TokenName(x: string): string {
    if IsNegated(x) then x[1..] else x
  }

  /** `line.split.compact_blank`. */
  function LineTokens(line: string): seq<string> {
    CompactBlank(Words(line))
  }

  /** The lines the query is cut into: categories stripped, down-cased, split
      at newlines. */
  function QueryLines(query: string, cats: seq<string>): seq<string> {
    SplitLines(LowerStr(StripCategories(query, cats)))
  }

  function LinesTokens(lines: seq<string>): seq<seq<string>> {
    seq(|lines|, i requires 0 <= i < |lines| => LineTokens(lines[i]))
  }

  /** Every token of the query, line after line. */
  function QueryTokens(query: string, cats: seq<string>): seq<string> {
    Flatten(LinesTokens(QueryLines(query, cats)))
  }

  function Names(ts: seq<string>): seq<string> {
    seq(|ts|, i requires 0 <= i < |ts| => TokenName(ts[i]))
  }

  lemma NamesSnoc(ts: seq<string>, x: string)
    ensures Names(ts + [x]) == Names(ts) + [TokenName(x)]
  {
  }

  lemma NamesAppend(ts: seq<string>, us: seq<string>)
    ensures Names(ts + us) == Names(ts) + Names(us)
  {
  }

  /** The lookup table: `to_aliased_with_originals` of every collected name,
      merged with the overrides. */
  function QueryTable(lines: seq<string>, active: map<string, string>, overrides: map<string, string>): map<string, string> {
    ToAliasedWithOriginals(Names(Flatten(LinesTokens(lines))), active) + overrides
  }

  function RewriteToken(x: string, table: map<string, string>): string {
    (if IsNegated(x) then "-" else "") + (if TokenName(x) in table then table[TokenName(x)] else "")
  }

  /** One line rebuilt: bare `-` tokens dropped, every other token looked up,
      single spaces between. */
  function RewriteLine(line: string, table: map<string, string>): string {
    var kept := Filter(LineTokens(line), x => x != "-");
    Join(seq(|kept|, i requires 0 <= i < |kept| => RewriteToken(kept[i], table)), ' ')
  }

  function RewrittenLines(lines: seq<string>, table: map<string, string>): seq<string> {
    seq(|lines|, i requires 0 <= i < |lines| => RewriteLine(lines[i], table))
  }

  /** `to_aliased_query(query, overrides:)`. */
  function AliasedQuery(query: string, cats: seq<string>, active: map<string, string>,
                        overrides: map<string, string>): string
  {
    var lines := QueryLines(query, cats);
    Join(Uniq(RewrittenLines(lines, QueryTable(lines, active, overrides))), '\n')
  }

  /** `to_aliased_query`, step by step: collect the names line by line, build
      the table, rewrite every line, keep the first copy of each line. */
  method ToAliasedQuery(query: string, cats: seq<string>, active: map<string, string>,
                        overrides: map<string, string>) returns (r: string)
    ensures r == AliasedQuery(query, cats, active, overrides)
  {
    var lines := QueryLines(query, cats);
    var collected := CollectNames(lines);
    var table := ToAliasedWithOriginals(collected, active) + overrides;
    var rewritten := RewriteLines(lines, table);
    r := Join(Uniq(rewritten), '\n');
  }

  /** When no rewritten line is empty or holds a newline, the lines of the
      aliased query are the rewritten lines, each once, in the order of
      their first occurrences. */
  lemma AliasedQueryLines(query: string, cats: seq<string>, active: map<string, string>,
                          overrides: map<string, string>)
    requires var lines := QueryLines(query, cats);
             forall l :: l in RewrittenLines(lines, QueryTable(lines, active, overrides)) ==> l != [] && '\n' !in l
    ensures var lines := QueryLines(query, cats);
            var rs := RewrittenLines(lines, QueryTable(lines, active, overrides));
            var ls := SplitLines(AliasedQuery(query, cats, active, overrides));
            && NoDuplicates(ls)
            && (forall l :: l in ls <==> l in rs)
            && (forall i, j :: 0 <= i < j < |ls| ==> FirstIndex(rs, ls[i]) < FirstIndex(rs, ls[j]))
  {
    var lines := QueryLines(query, cats);
    var rs := RewrittenLines(lines, QueryTable(lines, active, overrides));
    var u := Uniq(rs);
    if u != [] {
      assert u[|u| - 1] in rs;
    }
    SplitLinesOfJoin(u);
    UniqOrder(rs);
  }

  /** The first loop of `to_aliased_query`: the name of every token. */
  method CollectNames(lines: seq<string>) returns (collected: seq<string>)
    ensures collected == Names(Flatten(LinesTokens(lines)))
  {
    collected := [];
    var i := 0;
    while i < |lines|
      invariant 0 <= i <= |lines|
      invariant collected == Names(Flatten(LinesTokens(lines[..i])))
    {
      var tokens := LineTokens(lines[i]);
      ghost var before := Flatten(LinesTokens(lines[..i]));
      collected := AppendNames(collected, tokens);
      assert LinesTokens(lines[..i + 1]) == LinesTokens(lines[..i]) + [tokens];
      FlattenSnoc(LinesTokens(lines[..i]), tokens);
      NamesAppend(before, tokens);
      i := i + 1;
    }
    assert lines[..i] == lines;
  }

  /** The inner loop: the names of one line's tokens appended. */
  method AppendNames(collected: seq<string>, tokens: seq<string>) returns (r: seq<string>)
    ensures r == collected + Names(tokens)
  {
    r := collected;
    var j := 0;
    while j < |tokens|
      invariant 0 <= j <= |tokens|
      invariant r == collected + Names(tokens[..j])
    {
      assert tokens[..j + 1] == tokens[..j] + [tokens[j]];
      NamesSnoc(tokens[..j], tokens[j]);
      r := r + [TokenName(tokens[j])];
      j := j + 1;
    }
    assert tokens[..j] == tokens;
  }

  /** The second loop of `to_aliased_query`: every line rebuilt. */
  method RewriteLines(lines: seq<string>, table: map<string, string>) returns (rewritten: seq<string>)
    ensures rewritten == RewrittenLines(lines, table)
  {
    rewritten := [];
    var i := 0;
    while i < |lines|
      invariant 0 <= i <= |lines|
      invariant rewritten == RewrittenLines(lines[..i], table)
    {
      rewritten := rewritten + [RewriteLine(lines[i], table)];
      i := i + 1;
    }
    assert lines[..i] == lines;
  }

  // ---------------------------------------------------------------------
  // What `to_aliased_query` promises

  /** A name's rewrite, defined from the alias table and the overrides alone. */
  function Rewritten(x: string, active: map<string, string>, overrides: map<string, string>): string {
    (if IsNegated(x) then "-" else "") + Resolve(active, overrides, TokenName(x))
  }

  /** The merged table sends every collected name where `Resolve` does:
      overrides first, then active aliases, then the name itself. */
  lemma QueryTableLookup(lines: seq<string>, active: map<string, string>, overrides: map<string, string>)
    ensures forall n :: n in QueryTable(lines, active, overrides) <==>
              n in Names(Flatten(LinesTokens(lines))) || n in overrides
    ensures forall n :: n in Names(Flatten(LinesTokens(lines))) ==>
              QueryTable(lines, active, overrides)[n] == Resolve(active, overrides, n)
  {
  }

  /** A token's name is among the collected names. */
  lemma TokenNameCollected(lines: seq<string>, k: nat, x: string)
    requires k < |lines| && x in LineTokens(lines[k])
    ensures TokenName(x) in Names(Flatten(LinesTokens(lines)))
  {
    InFlatten(LinesTokens(lines), k, x);
    var ts := Flatten(LinesTokens(lines));
    var m :| 0 <= m < |ts| && ts[m] == x;
    assert Names(ts)[m] == TokenName(x);
  }

  predicate IsTagName(v: string) {
    v != [] && NoSpace(v) && v[0] != '-'
  }

  /** A kept token is rewritten as `Rewritten` says, into one word. */
  lemma RewriteKeptToken(lines: seq<string>, k: nat, x: string, active: map<string, string>, overrides: map<string, string>)
    requires k < |lines| && x in LineTokens(lines[k]) && x != "-"
    requires forall n :: n in active ==> IsTagName(active[n])
    requires forall n :: n in overrides ==> IsTagName(overrides[n])
    ensures RewriteToken(x, QueryTable(lines, active, overrides)) == Rewritten(x, active, overrides)
    ensures Rewritten(x, active, overrides) != [] && NoSpace(Rewritten(x, active, overrides))
  {
    QueryTableLookup(lines, active, overrides);
    TokenNameCollected(lines, k, x);
    assert x in Words(lines[k]);
  }

  /** The kept tokens of a line, rewritten one by one. */
  function KeptRewrites(line: string, active: map<string, string>, overrides: map<string, string>): seq<string> {
    var kept := Filter(LineTokens(line), x => x != "-");
    seq(|kept|, i requires 0 <= i < |kept| => Rewritten(kept[i], active, overrides))
  }

  lemma RewriteLineIsJoin(lines: seq<string>, k: nat, active: map<string, string>, overrides: map<string, string>)
    requires k < |lines|
    requires forall n :: n in active ==> IsTagName(active[n])
    requires forall n :: n in overrides ==> IsTagName(overrides[n])
    ensures Words(RewriteLine(lines[k], QueryTable(lines, active, overrides))) == KeptRewrites(lines[k], active, overrides)
  {
    var table := QueryTable(lines, active, overrides);
    var kept := Filter(LineTokens(lines[k]), x => x != "-");
    var rw := seq(|kept|, i requires 0 <= i < |kept| => RewriteToken(kept[i], table));
    forall i | 0 <= i < |kept| ensures rw[i] == Rewritten(kept[i], active, overrides) && rw[i] != [] && NoSpace(rw[i]) {
      RewriteKeptToken(lines, k, kept[i], active, overrides);
    }
    assert rw == KeptRewrites(lines[k], active, overrides);
    WordsOfJoin(rw);
  }

  /** The words of a rewritten line are the rewrites of its kept tokens. */
  lemma RewriteLineWords(lines: seq<string>, k: nat, active: map<string, string>, overrides: map<string, string>)
    requires k < |lines|
    requires forall n :: n in active ==> IsTagName(active[n])
    requires forall n :: n in overrides ==> IsTagName(overrides[n])
    ensures forall w :: w in Words(RewriteLine(lines[k], QueryTable(lines, active, overrides))) <==>
              exists x :: x in LineTokens(lines[k]) && x != "-" && w == Rewritten(x, active, overrides)
  {
    RewriteLineIsJoin(lines, k, active, overrides);
    var kept := Filter(LineTokens(lines[k]), x => x != "-");
    var rw := KeptRewrites(lines[k], active, overrides);
    forall w | w in rw
      ensures exists x :: x in LineTokens(lines[k]) && x != "-" && w == Rewritten(x, active, overrides)
    {
      var i :| 0 <= i < |rw| && rw[i] == w;
      assert kept[i] in kept;
    }
    forall x | x in LineTokens(lines[k]) && x != "-"
      ensures Rewritten(x, active, overrides) in rw
    {
      var i :| 0 <= i < |kept| && kept[i] == x;
      assert rw[i] == Rewritten(x, active, overrides);
    }
  }

  /** Every word of the rewritten query is the rewrite of a query token other
      than a bare `-`, and the rewrite of every such token is in it. */
  lemma AliasedQueryWords(query: string, cats: seq<string>, active: map<string, string>,
                          overrides: map<string, string>)
    requires forall n :: n in active ==> IsTagName(active[n])
    requires forall n :: n in overrides ==> IsTagName(overrides[n])
    ensures forall w :: w in Words(AliasedQuery(query, cats, active, overrides)) ==>
              exists x :: x in QueryTokens(query, cats) && x != "-" && w == Rewritten(x, active, overrides)
    ensures forall x :: x in QueryTokens(query, cats) && x != "-" ==>
              Rewritten(x, active, overrides) in Words(AliasedQuery(query, cats, active, overrides))
  {
    forall w | w in Words(AliasedQuery(query, cats, active, overrides))
      ensures exists x :: x in QueryTokens(query, cats) && x != "-" && w == Rewritten(x, active, overrides)
    {
      WordFromToken(query, cats, active, overrides, w);
    }
    forall x | x in QueryTokens(query, cats) && x != "-"
      ensures Rewritten(x, active, overrides) in Words(AliasedQuery(query, cats, active, overrides))
    {
      TokenToWord(query, cats, active, overrides, x);
    }
  }

  /** An output word comes from a line that is the rewrite of a query line,
      so from a token of that line. */
  lemma WordFromToken(query: string, cats: seq<string>, active: map<string, string>,
                      overrides: map<string, string>, w: string)
    requires forall n :: n in active ==> IsTagName(active[n])
    requires forall n :: n in overrides ==> IsTagName(overrides[n])
    requires w in Words(AliasedQuery(query, cats, active, overrides))
    ensures exists x :: x in QueryTokens(query, cats) && x != "-" && w == Rewritten(x, active, overrides)
  {
    var lines := QueryLines(query, cats);
    var rl := RewrittenLines(lines, QueryTable(lines, active, overrides));
    var u := Uniq(rl);
    var ws := seq(|u|, i requires 0 <= i < |u| => Words(u[i]));
    WordsOfLines(u);
    assert w in Flatten(ws);
    var i := FlattenIn(ws, w);
    assert u[i] in u;
    var k :| 0 <= k < |lines| && rl[k] == u[i];
    RewriteLineWords(lines, k, active, overrides);
    var x :| x in LineTokens(lines[k]) && x != "-" && w == Rewritten(x, active, overrides);
    InFlatten(LinesTokens(lines), k, x);
  }

  /** A token of a query line is rewritten in that line's rewrite, whose first
      copy the output keeps. */
  lemma TokenToWord(query: string, cats: seq<string>, active: map<string, string>,
                    overrides: map<string, string>, x: string)
    requires forall n :: n in active ==> IsTagName(active[n])
    requires forall n :: n in overrides ==> IsTagName(overrides[n])
    requires x in QueryTokens(query, cats) && x != "-"
    ensures Rewritten(x, active, overrides) in Words(AliasedQuery(query, cats, active, overrides))
  {
    var lines := QueryLines(query, cats);
    var rl := RewrittenLines(lines, QueryTable(lines, active, overrides));
    var u := Uniq(rl);
    var ws := seq(|u|, i requires 0 <= i < |u| => Words(u[i]));
    WordsOfLines(u);
    var k := FlattenIn(LinesTokens(lines), x);
    RewriteLineWords(lines, k, active, overrides);
    assert rl[k] in rl;
    var i :| 0 <= i < |u| && u[i] == rl[k];
    InFlatten(ws, i, Rewritten(x, active, overrides));
  }

  /** A rewritten token keeps its negation and names what its name resolves to. */
  lemma RewrittenName(x: string, active: map<string, string>, overrides: map<string, string>)
    requires x != "-"
    requires forall n :: n in active ==> IsTagName(active[n])
    requires forall n :: n in overrides ==> IsTagName(overrides[n])
    ensures IsNegated(Rewritten(x, active, overrides)) <==> IsNegated(x)
    ensures TokenName(Rewritten(x, active, overrides)) == Resolve(active, overrides, TokenName(x))
  {
    var r := Resolve(active, overrides, TokenName(x));
    if IsNegated(x) {
      assert Rewritten(x, active, overrides) == ['-'] + r;
      assert (['-'] + r)[1..] == r;
    } else {
      assert Rewritten(x, active, overrides) == r;
    }
  }

  /** No name resolves to `a` when `a` is aliased or overridden and nothing
      leads to it. */
  lemma ResolveAvoids(active: map<string, string>, overrides: map<string, string>, name: string, a: string)
    requires forall n :: n in active ==> active[n] != a
    requires forall n :: n in overrides ==> overrides[n] != a
    requires a in active || a in overrides
    ensures Resolve(active, overrides, name) != a
  {
  }

  /** After an alias of `a` is in the table, no token of the rewritten query
      names `a`, provided no alias and no override leads to `a`. */
  lemma NoAntecedentLeft(query: string, cats: seq<string>, active: map<string, string>,
                         overrides: map<string, string>, a: string)
    requires forall n :: n in active ==> IsTagName(active[n]) && active[n] != a
    requires forall n :: n in overrides ==> IsTagName(overrides[n]) && overrides[n] != a
    requires a in active || a in overrides
    ensures forall w :: w in Words(AliasedQuery(query, cats, active, overrides)) ==> TokenName(w) != a
  {
    var out := AliasedQuery(query, cats, active, overrides);
    AliasedQueryWords(query, cats, active, overrides);
    forall w | w in Words(out) ensures TokenName(w) != a {
      var x :| x in QueryTokens(query, cats) && x != "-" && w == Rewritten(x, active, overrides);
      RewrittenName(x, active, overrides);
      ResolveAvoids(active, overrides, TokenName(x), a);
    }
  }

  /** Every token of the query is down-cased. */
  lemma QueryTokensLowerCase(query: string, cats: seq<string>)
    ensures forall x :: x in QueryTokens(query, cats) ==> IsLowerCase(x)
  {
    var lines := QueryLines(query, cats);
    LowerStrIsLowerCase(StripCategories(query, cats));
    SplitLinesLowerCase(LowerStr(StripCategories(query, cats)));
    forall x | x in QueryTokens(query, cats) ensures IsLowerCase(x) {
      var k := FlattenIn(LinesTokens(lines), x);
      assert lines[k] in lines;
      WordsLowerCase(lines[k]);
      assert x in Words(lines[k]);
    }
  }

  /** The rewritten query is down-cased when the alias targets and the
      overrides are: a name no table maps is the down-cased token itself. */
  lemma AliasedQueryLowerCase(query: string, cats: seq<string>, active: map<string, string>,
                              overrides: map<string, string>)
    requires forall n :: n in active ==> IsTagName(active[n]) && IsLowerCase(active[n])
    requires forall n :: n in overrides ==> IsTagName(overrides[n]) && IsLowerCase(overrides[n])
    ensures forall w :: w in Words(AliasedQuery(query, cats, active, overrides)) ==> IsLowerCase(w)
  {
    AliasedQueryWords(query, cats, active, overrides);
    QueryTokensLowerCase(query, cats);
    var ts := QueryTokens(query, cats);
    forall w | w in Words(AliasedQuery(query, cats, active, overrides)) ensures IsLowerCase(w) {
      var x :| x in ts && x != "-" && w == Rewritten(x, active, overrides);
      RewrittenLowerCase(x, active, overrides);
    }
  }

  /** A down-cased token is rewritten into a down-cased word when the targets
      are down-cased. */
  lemma RewrittenLowerCase(x: string, active: map<string, string>, overrides: map<string, string>)
    requires IsLowerCase(x)
    requires forall n :: n in active ==> IsLowerCase(active[n])
    requires forall n :: n in overrides ==> IsLowerCase(overrides[n])
    ensures IsLowerCase(Rewritten(x, active, overrides))
  {
    var name := TokenName(x);
    assert IsLowerCase(name);
    var r := Resolve(active, overrides, name);
    assert IsLowerCase(r);
    var pre := if IsNegated(x) then "-" else "";
    assert IsLowerCase(pre);
    assert Rewritten(x, active, overrides) == pre + r;
  }

  /** An override wins over the active aliases: every token naming an
      overridden tag comes out, with its `-` kept, as the override's target. */
  lemma OverrideApplied(query: string, cats: seq<string>, active: map<string, string>,
                        overrides: map<string, string>, from: string)
    requires forall n :: n in active ==> IsTagName(active[n])
    requires forall n :: n in overrides ==> IsTagName(overrides[n])
    requires from in overrides
    ensures forall x :: x in QueryTokens(query, cats) && x != "-" && TokenName(x) == from ==>
              exists w :: w in Words(AliasedQuery(query, cats, active, overrides)) &&
                          TokenName(w) == overrides[from] && (IsNegated(w) <==> IsNegated(x))
  {
    AliasedQueryWords(query, cats, active, overrides);
    forall x | x in QueryTokens(query, cats) && x != "-" && TokenName(x) == from
      ensures exists w :: w in Words(AliasedQuery(query, cats, active, overrides)) &&
                          TokenName(w) == overrides[from] && (IsNegated(w) <==> IsNegated(x))
    {
      RewrittenName(x, active, overrides);
      var w := Rewritten(x, active, overrides);
      assert w in Words(AliasedQuery(query, cats, active, overrides));
    }
  }
}
