/**
 * The alias engine as the Ruby code runs it: a store whose tables the
 * methods update record by record, and an alias object with the memoised
 * fields of `list_transitives` and `has_transitives`. Every method is proved
 * to leave the store as the value-level definitions of the other modules
 * say.
 */
module Engine {
  import opened Wrappers
  import opened Text
  import opened TagGraph
  import opened Database
  import opened Lifecycle
  import opened Requests
  import AliasQuery

  /** The database tables the alias engine reads and writes. */
  class Store {
    var aliases: map<nat, Relation>
    var implications: map<nat, Relation>
    var tags: map<string, Tag>
    var posts: map<nat, set<string>>
    var lockedTags: map<nat, string>
    var blacklists: map<nat, string>
    var followers: map<nat, string>
    var artists: map<nat, string>
    var undos: map<nat, Undo>
    var log: seq<Event>

    function Snapshot(): Db
      reads this
    {
      Db(aliases, implications, tags, posts, lockedTags, blacklists, followers, artists, undos, log)
    }

    constructor (db: Db)
      ensures Snapshot() == db
    {
      aliases := db.aliases;
      implications := db.implications;
      tags := db.tags;
      posts := db.posts;
      lockedTags := db.lockedTags;
      blacklists := db.blacklists;
      followers := db.followers;
      artists := db.artists;
      undos := db.undos;
      log := db.log;
    }
  }

  // ---------------------------------------------------------------------
  // The move loops, half done

  /** Moving one id of a worklist over to the done set. */
  lemma WorklistStep(todo: set<nat>, done: set<nat>, all: set<nat>, j: nat)
    requires todo !! done && todo + done == all && j in todo
    ensures (todo - {j}) !! (done + {j}) && (todo - {j}) + (done + {j}) == all
    ensures |todo - {j}| < |todo|
  {
  }

  /** The alias table once the aliases in `done` (each ending at `a`) have
      been re-pointed or destroyed. */
  function AliasesMovedOn(aliases: map<nat, Relation>, a: string, c: string, done: set<nat>): map<nat, Relation> {
    map id | id in aliases && !(id in done && EndsAt(aliases[id], a) && aliases[id].antecedent == c) ::
      if id in done && EndsAt(aliases[id], a) && AliasErrors(aliases, id, aliases[id].(consequent := c)) == []
      then aliases[id].(consequent := c)
      else aliases[id]
  }

  /** Re-pointing one more alias validates against the half-moved table as
      it would against the original one: only the records destroyed so far
      differ, and they start at `c`, which no active alias does. */
  lemma MoveStepValidates(orig: map<nat, Relation>, a: string, c: string, done: set<nat>, j: nat)
    requires j in orig && j !in done && EndsAt(orig[j], a)
    requires !HasActiveAliasFrom(orig, c)
    ensures var cur := AliasesMovedOn(orig, a, c, done);
      j in cur && cur[j] == orig[j] &&
      (AliasErrors(cur, j, orig[j].(consequent := c)) == [] <==>
       AliasErrors(orig, j, orig[j].(consequent := c)) == []) &&
      (SelfReference in AliasErrors(cur, j, orig[j].(consequent := c)) <==> orig[j].antecedent == c)
  {
    var cur := AliasesMovedOn(orig, a, c, done);
    var r := orig[j].(consequent := c);
    assert Narrower(cur, orig);
    assert !HasActiveAliasFrom(cur, c);
    if r.antecedent != c && r.status != Deleted {
      if HasDuplicateAntecedent(orig, j, r) {
        var other :| other in orig && other != j &&
          InDuplicateRelevantScope(orig[other].status) && orig[other].antecedent == r.antecedent;
        assert other in cur;
      }
      assert HasDuplicateAntecedent(cur, j, r) == HasDuplicateAntecedent(orig, j, r);
    }
  }

  /** One more alias ending at `a` counted as done: dropped when it starts
      at `c`, re-pointed when that is valid against the original table,
      kept otherwise. */
  lemma MovedOnOneMore(orig: map<nat, Relation>, a: string, c: string, done: set<nat>, j: nat)
    requires j in orig && j !in done && EndsAt(orig[j], a)
    ensures var cur := AliasesMovedOn(orig, a, c, done);
      var r := orig[j].(consequent := c);
      j in cur && cur[j] == orig[j] &&
      AliasesMovedOn(orig, a, c, done + {j}) ==
        if r.antecedent == c then cur - {j}
        else if AliasErrors(orig, j, r) == [] then cur[j := r]
        else cur
  {
    var cur := AliasesMovedOn(orig, a, c, done);
    var next := AliasesMovedOn(orig, a, c, done + {j});
    var r := orig[j].(consequent := c);
    if r.antecedent == c {
      assert next.Keys == cur.Keys - {j};
    } else {
      assert next.Keys == cur.Keys;
    }
  }

  /** Before the first turn, the alias table is as it was. */
  lemma AliasesMovedOnNothing(orig: map<nat, Relation>, a: string, c: string)
    ensures AliasesMovedOn(orig, a, c, {}) == orig
  {
    assert AliasesMovedOn(orig, a, c, {}).Keys == orig.Keys;
  }

  /** Saving the alias `j` of the half-moved table re-pointed to `c` moves
      it on: kept when valid, destroyed when a self-loop, left otherwise. */
  lemma AliasMoveStep(orig: map<nat, Relation>, a: string, c: string, done: set<nat>, j: nat)
    requires j in orig && j !in done && EndsAt(orig[j], a)
    requires !HasActiveAliasFrom(orig, c)
    ensures var cur := AliasesMovedOn(orig, a, c, done);
      var r := orig[j].(consequent := c);
      var errs := AliasErrors(cur, j, r);
      j in cur && cur[j] == orig[j] &&
      AliasesMovedOn(orig, a, c, done + {j}) ==
        if errs == [] then cur[j := r] else if SelfReference in errs then cur - {j} else cur
  {
    MoveStepValidates(orig, a, c, done, j);
    MovedOnOneMore(orig, a, c, done, j);
  }

  /** When every alias ending at `a` has been saved, the table is the moved
      one. */
  lemma AliasesMovedAll(orig: map<nat, Relation>, a: string, c: string, done: set<nat>)
    requires done == set j | j in orig && EndsAt(orig[j], a)
    ensures AliasesMovedOn(orig, a, c, done) == MovedAliases(orig, a, c)
  {
  }

  /** The endpoint a pass looks at: the antecedent when `from`, else the
      consequent. */
  function Endpoint(r: Relation, from: bool): string {
    if from then r.antecedent else r.consequent
  }

  /** The implication with that endpoint moved to `c`. */
  function Repointed(r: Relation, c: string, from: bool): Relation {
    if from then r.(antecedent := c) else r.(consequent := c)
  }

  /** The implication table once those in `done` have had their endpoint
      moved to `c`, or been destroyed when that made them self-loops. */
  function ImplicationsMovedOn(implications: map<nat, Relation>, c: string, from: bool, done: set<nat>): map<nat, Relation> {
    map id | id in implications &&
             !(id in done && Repointed(implications[id], c, from).antecedent == Repointed(implications[id], c, from).consequent) ::
      if id in done then Repointed(implications[id], c, from) else implications[id]
  }

  /** Before the first turn, the implication table is as it was. */
  lemma ImplicationsMovedOnNothing(orig: map<nat, Relation>, c: string, from: bool)
    ensures ImplicationsMovedOn(orig, c, from, {}) == orig
  {
    assert ImplicationsMovedOn(orig, c, from, {}).Keys == orig.Keys;
  }

  lemma ImplicationMoveStep(orig: map<nat, Relation>, c: string, from: bool, done: set<nat>, j: nat)
    requires j in orig && j !in done
    ensures var cur := ImplicationsMovedOn(orig, c, from, done);
      var r := Repointed(orig[j], c, from);
      j in cur && cur[j] == orig[j] &&
      ImplicationsMovedOn(orig, c, from, done + {j}) ==
        if r.antecedent != r.consequent then cur[j := r] else cur - {j}
  {
    var cur := ImplicationsMovedOn(orig, c, from, done);
    var r := Repointed(orig[j], c, from);
    var next := ImplicationsMovedOn(orig, c, from, done + {j});
    var expected := if r.antecedent != r.consequent then cur[j := r] else cur - {j};
    assert next.Keys == expected.Keys;
  }

  lemma ImplicationsMovedAll(orig: map<nat, Relation>, a: string, c: string, from: bool, done: set<nat>)
    requires a != c
    requires done == set j | j in orig && Endpoint(orig[j], from) == a
    ensures ImplicationsMovedOn(orig, c, from, done) ==
              if from then MovedImplicationsFrom(orig, a, c) else MovedImplicationsTo(orig, a, c)
  {
  }

  // ---------------------------------------------------------------------
  // The record loops of the side steps, half done

  /** The texts once those in `done` have been given their value in
      `target`. */
  function Overwritten(texts: map<nat, string>, target: map<nat, string>, done: set<nat>): map<nat, string>
    requires done <= target.Keys
  {
    map k | k in texts :: if k in done then target[k] else texts[k]
  }

  /** Before the first turn, nothing is overwritten. */
  lemma OverwrittenNothing(texts: map<nat, string>, target: map<nat, string>)
    ensures Overwritten(texts, target, {}) == texts
  {
  }

  lemma OverwrittenStep(texts: map<nat, string>, target: map<nat, string>, done: set<nat>, k: nat)
    requires done <= target.Keys && k in target && k in texts && k !in done
    ensures var cur := Overwritten(texts, target, done);
      k in cur && cur[k] == texts[k] && Overwritten(texts, target, done + {k}) == cur[k := target[k]]
  {
  }

  /** The loop has rewritten every matching text: the result is
      `FixedQueries`. */
  lemma OverwrittenAll(texts: map<nat, string>, pattern: string, cats: seq<string>, table: map<string, string>,
                       overrides: map<string, string>, done: set<nat>)
    requires done == Mentioning(texts, pattern)
    ensures var target := FixedQueries(texts, pattern, cats, table, overrides);
      done <= target.Keys && Overwritten(texts, target, done) == target
  {
  }

  /** `where_ilike(column, "*pattern*")`. */
  function Mentioning(texts: map<nat, string>, pattern: string): set<nat> {
    set k | k in texts && ContainsIgnoringCase(texts[k], pattern)
  }

  /** The posts once those in `done` have had the diff `-from to`. */
  function PostsRetaggedOn(posts: map<nat, set<string>>, from: string, to: string, done: set<nat>): map<nat, set<string>> {
    map p | p in posts :: if p in done then Retag(posts[p], from, to) else posts[p]
  }

  /** Applying the diff once more to a post moves the loop on; a post seen
      twice is not changed again, because the diff is idempotent. */
  lemma PostsRetaggedStep(posts: map<nat, set<string>>, from: string, to: string, done: set<nat>, p: nat)
    requires p in posts
    ensures var cur := PostsRetaggedOn(posts, from, to, done);
      p in cur &&
      PostsRetaggedOn(posts, from, to, done + {p}) == cur[p := Retag(cur[p], from, to)]
  {
    var cur := PostsRetaggedOn(posts, from, to, done);
    if p in done {
      assert Retag(Retag(posts[p], from, to), from, to) == Retag(posts[p], from, to);
    }
  }

  /** A listed post that no longer exists is skipped. */
  lemma PostsRetaggedSkip(posts: map<nat, set<string>>, from: string, to: string, done: set<nat>, p: nat)
    requires p !in posts
    ensures PostsRetaggedOn(posts, from, to, done + {p}) == PostsRetaggedOn(posts, from, to, done)
  {
  }

  lemma PostsRetaggedAll(posts: map<nat, set<string>>, a: string, c: string, done: set<nat>)
    requires done == TaggedWith(posts, a)
    ensures PostsRetaggedOn(posts, a, c, done) == RetaggedPosts(posts, a, c)
  {
  }

  /** The followers once those in `done` follow `c` instead. */
  function FollowersMovedOn(followers: map<nat, string>, c: string, done: set<nat>): map<nat, string> {
    map f | f in followers :: if f in done then c else followers[f]
  }

  lemma FollowersMovedStep(followers: map<nat, string>, c: string, done: set<nat>, f: nat)
    requires f in followers
    ensures FollowersMovedOn(followers, c, done + {f}) == FollowersMovedOn(followers, c, done)[f := c]
  {
  }

  lemma FollowersMovedAll(followers: map<nat, string>, a: string, c: string, done: set<nat>)
    requires done == Following(followers, a)
    ensures FollowersMovedOn(followers, c, done) == MovedFollowers(followers, a, c)
  {
  }

  /** The ids a list holds. */
  function Elements(s: seq<nat>): set<nat> {
    set x | x in s
  }

  /** The post ids of the undo records `us`. */
  function IdsOf(undos: map<nat, Undo>, us: set<nat>): set<nat> {
    set u, k | u in us && u in undos && 0 <= k < |undos[u].postIds| :: undos[u].postIds[k]
  }

  lemma IdsOfStep(undos: map<nat, Undo>, us: set<nat>, u: nat)
    requires u in undos
    ensures IdsOf(undos, us + {u}) == IdsOf(undos, us) + Elements(undos[u].postIds)
  {
    var l := IdsOf(undos, us + {u});
    var r := IdsOf(undos, us) + Elements(undos[u].postIds);
    forall x | x in r ensures x in l {
      if x in undos[u].postIds {
        var k :| 0 <= k < |undos[u].postIds| && undos[u].postIds[k] == x;
      }
    }
  }

  /** The unapplied undo rows of alias `id`: `tag_rel_undos.where(applied: false)`. */
  function Unapplied(undos: map<nat, Undo>, id: nat): set<nat> {
    set u | u in undos && undos[u].aliasId == id && !undos[u].applied
  }

  lemma IdsOfAll(undos: map<nat, Undo>, id: nat, us: set<nat>)
    requires us == Unapplied(undos, id)
    ensures IdsOf(undos, us) == UndoPostIds(undos, id)
  {
  }

  /** One more element of a list joins the set of its prefix's elements. */
  lemma PrefixElements(s: seq<nat>, i: nat)
    requires i < |s|
    ensures Elements(s[..i + 1]) == Elements(s[..i]) + {s[i]}
  {
    assert s[..i + 1] == s[..i] + [s[i]];
  }

  // ---------------------------------------------------------------------
  // `create_undo_information`

  lemma AppendIncreasing(r: seq<nat>, m: nat)
    requires StrictlyIncreasing(r)
    requires forall x :: x in r ==> x < m
    ensures StrictlyIncreasing(r + [m])
  {
    var r' := r + [m];
    forall i, j | 0 <= i < j < |r'| ensures r'[i] < r'[j] {
      assert r'[i] == r[i];
      if j == |r| {
        assert r[i] in r;
      } else {
        assert r'[j] == r[j];
      }
    }
  }

  /** The head of an increasing list is its least element, and the tail
      holds the rest. */
  lemma HeadAndTail(r: seq<nat>)
    requires StrictlyIncreasing(r) && r != []
    ensures forall x :: x in r ==> r[0] <= x
    ensures forall x :: x in r[1..] <==> x in r && x != r[0]
  {
    forall x | x in r ensures r[0] <= x {
      var i :| 0 <= i < |r| && r[i] == x;
    }
    forall x | x in r && x != r[0] ensures x in r[1..] {
      var i :| 0 <= i < |r| && r[i] == x;
      assert r[1..][i - 1] == x;
    }
  }

  lemma HeadIn(r: seq<nat>)
    ensures r != [] ==> r[0] in r
  {
  }

  /** A set has one increasing listing. */
  lemma {:induction false} IncreasingUnique(r1: seq<nat>, r2: seq<nat>)
    requires StrictlyIncreasing(r1) && StrictlyIncreasing(r2)
    requires forall x :: x in r1 <==> x in r2
    ensures r1 == r2
    decreases |r1|
  {
    if r1 == [] {
      HeadIn(r2);
    } else {
      assert r1[0] in r2;
      HeadAndTail(r1);
      HeadAndTail(r2);
      assert r1[0] == r2[0] by {
        assert r2[0] in r1;
      }
      IncreasingUnique(r1[1..], r2[1..]);
      assert r1 == [r1[0]] + r1[1..] && r2 == [r2[0]] + r2[1..];
    }
  }

  /** `Post.sql_raw_tag_match(...).find_each`: the matching ids in
      primary-key order, smallest first. */
  method SortedPostIds(s: set<nat>) returns (ids: seq<nat>)
    ensures ids == SortedIds(s)
  {
    ids := [];
    var rest := s;
    while rest != {}
      invariant rest <= s && StrictlyIncreasing(ids)
      invariant forall x :: x in ids <==> x in s && x !in rest
      invariant forall x, y :: x in ids && y in rest ==> x < y
      decreases |rest|
    {
      MinimumExists(rest);
      var m :| IsMinimum(m, rest);
      AppendIncreasing(ids, m);
      ids := ids + [m];
      rest := rest - {m};
    }
    IncreasingUnique(ids, SortedIds(s));
  }

  /** Both conditions pin the id down: one past the largest key. */
  lemma NextUndoIdUnique(undos: map<nat, Undo>, n: nat)
    requires forall x :: x in undos ==> x < n
    requires n == 0 || n - 1 in undos
    ensures n == NextUndoId(undos)
  {
    var m := NextUndoId(undos);
    if undos != map[] {
      var x :| x in undos;
      assert n - 1 < m && m - 1 < n;
    }
  }

  /** The id the database gives the new undo row. */
  method AllocateUndoId(undos: map<nat, Undo>) returns (n: nat)
    ensures n == NextUndoId(undos)
  {
    n := 0;
    var keys := undos.Keys;
    while keys != {}
      invariant keys <= undos.Keys
      invariant forall x :: x in undos && x !in keys ==> x < n
      invariant n == 0 || n - 1 in undos
      decreases |keys|
    {
      var k :| k in keys;
      if k + 1 > n {
        n := k + 1;
      }
      keys := keys - {k};
    }
    NextUndoIdUnique(undos, n);
  }

  lemma PostsUndoneIs(db: Db, id: nat, a: string, c: string)
    ensures WithPostsUndone(db, id, a, c) ==
              WithPostCountsFixed(db.(posts := PostsRetaggedOn(db.posts, c, a, UndoPostIds(db.undos, id))), a, c)
  {
  }

  // ---------------------------------------------------------------------
  // `process!`

  /** Once `update!(status: "processing")` has passed, no active alias
      starts at the consequent, so the sequential saves of the move pass see
      the table `MovedAliases` is defined over. */
  lemma ProcessingUnobstructed(aliases: map<nat, Relation>, id: nat, r: Relation)
    requires r.status != Deleted && AliasErrors(aliases, id, r) == []
    ensures r.antecedent != r.consequent && !HasActiveAliasFrom(aliases[id := r], r.consequent)
  {
  }

  /** The `aliases.each` loop of `list_transitives`. */
  method AliasPreview(aliases: map<nat, Relation>, implications: map<nat, Relation>, a: string, c: string)
    returns (es: seq<Transitive>)
    ensures IsAliasPreview(es, aliases, implications, a, c)
  {
    var todo := set j | j in aliases && InDuplicateRelevantScope(aliases[j].status) &&
                        aliases[j].consequent == a;
    ghost var all := todo;
    ghost var done: set<nat> := {};
    es := [];
    while todo != {}
      invariant todo !! done && todo + done == all
      invariant AliasPreviewOf(es, aliases, implications, a, c, done)
      decreases |todo|
    {
      var j :| j in todo;
      WorklistStep(todo, done, all, j);
      AliasPreviewStep(es, aliases, implications, a, c, done, j);
      es := es + [AliasEntry(j, aliases[j].antecedent, a, c)];
      todo := todo - {j};
      done := done + {j};
    }
    AliasPreviewDone(es, aliases, implications, a, c, done);
  }

  /** The `implications.each` loop of `list_transitives`: an implication
      starting at `a` will start at `c`, one ending at `a` will end at `c`. */
  method ImplicationPreview(aliases: map<nat, Relation>, implications: map<nat, Relation>, a: string, c: string)
    returns (es: seq<Transitive>)
    ensures IsImplicationPreview(es, aliases, implications, a, c)
  {
    var todo := set j | j in implications && InDuplicateRelevantScope(implications[j].status) &&
                        (implications[j].antecedent == a || implications[j].consequent == a);
    ghost var all := todo;
    ghost var done: set<nat> := {};
    es := [];
    while todo != {}
      invariant todo !! done && todo + done == all
      invariant ImplicationPreviewOf(es, aliases, implications, a, c, done)
      decreases |todo|
    {
      var j :| j in todo;
      WorklistStep(todo, done, all, j);
      ImplicationPreviewStep(es, aliases, implications, a, c, done, j);
      es := es + [ImplicationEntryOf(implications, j, a, c)];
      todo := todo - {j};
      done := done + {j};
    }
    ImplicationPreviewDone(es, aliases, implications, a, c, done);
  }

  class TagAlias {
    const id: nat
    const store: Store
    /** `@transitives`: `None` until `list_transitives` has run. */
    var transitives: Option<seq<Transitive>>
    /** `@has_transitives`: Ruby's `||=` only keeps a true value. */
    var hasTransitives: bool

    constructor (id: nat, store: Store)
      ensures this.id == id && this.store == store
      ensures transitives == None && !hasTransitives
    {
      this.id := id;
      this.store := store;
      transitives := None;
      hasTransitives := false;
    }

    /** `list_transitives` for this alias, whose row is `a -> c`: the
        memoised list when there is one, otherwise the aliases in the
        `duplicate_relevant` scope ending at `a` followed by the implications
        in that scope starting or ending at `a`, each with the endpoints
        processing gives it. */
    method ListTransitives(a: string, c: string) returns (es: seq<Transitive>)
      requires id in store.aliases && store.aliases[id].antecedent == a && store.aliases[id].consequent == c
      modifies this`transitives
      ensures old(transitives).Some? ==> transitives == old(transitives) && es == transitives.value
      ensures old(transitives).None? ==>
        transitives == Some(es) && IsTransitiveList(es, store.aliases, store.implications, a, c)
    {
      if transitives.Some? {
        return transitives.value;
      }
      var al := AliasPreview(store.aliases, store.implications, a, c);
      var im := ImplicationPreview(store.aliases, store.implications, a, c);
      PreviewJoin(al, im, store.aliases, store.implications, a, c);
      es := al + im;
      transitives := Some(es);
    }

    /** `has_transitives`: a true answer is kept for good, a false one is
        asked again; the answer says whether the preview is nonempty. */
    method HasTransitives(a: string, c: string) returns (b: bool)
      requires id in store.aliases && store.aliases[id].antecedent == a && store.aliases[id].consequent == c
      modifies this`transitives, this`hasTransitives
      ensures old(hasTransitives) ==> b && unchanged(this)
      ensures !old(hasTransitives) ==> hasTransitives == b
      ensures !old(hasTransitives) && old(transitives).Some? ==>
        transitives == old(transitives) && (b <==> transitives.value != [])
      ensures !old(hasTransitives) && old(transitives).None? ==>
        transitives.Some? && IsTransitiveList(transitives.value, store.aliases, store.implications, a, c)
      ensures !old(hasTransitives) && old(transitives).None? ==>
        (b <==>
          (exists id :: id in store.aliases && InDuplicateRelevantScope(store.aliases[id].status) &&
                        store.aliases[id].consequent == a) ||
          (exists id :: id in store.implications && InDuplicateRelevantScope(store.implications[id].status) &&
                        (store.implications[id].antecedent == a || store.implications[id].consequent == a)))
    {
      if hasTransitives {
        return true;
      }
      var es := ListTransitives(a, c);
      if old(transitives).None? {
        TransitiveListEmpty(es, store.aliases, store.implications, a, c);
      }
      b := es != [];
      hasTransitives := b;
    }

    /** `move_aliases_and_implications`: each alias ending at `a` is saved
        pointing at `c`, and destroyed when that save fails for being a
        self-loop; then each implication starting at `a`, then each one
        ending at `a`, likewise. Run where `process!` runs it: the alias is
        `a -> c` with `a != c` and no active alias starts at `c`. */
    method MoveAliasesAndImplications(a: string, c: string)
      requires a != c && !HasActiveAliasFrom(store.aliases, c)
      modifies store
      ensures store.Snapshot() == WithMove(old(store.Snapshot()), a, c)
    {
      MoveAliases(a, c);
      MoveImplications(a, c, true);
      MoveImplications(a, c, false);
    }

    /** The alias pass of `move_aliases_and_implications`. */
    method MoveAliases(a: string, c: string)
      requires !HasActiveAliasFrom(store.aliases, c)
      modifies store`aliases
      ensures store.aliases == MovedAliases(old(store.aliases), a, c)
    {
      ghost var orig := store.aliases;
      var todo := set j | j in store.aliases && store.aliases[j].consequent == a;
      ghost var all := todo;
      ghost var done: set<nat> := {};
      AliasesMovedOnNothing(orig, a, c);
      while todo != {}
        invariant todo !! done && todo + done == all
        invariant store.aliases == AliasesMovedOn(orig, a, c, done)
        decreases |todo|
      {
        var j :| j in todo;
        WorklistStep(todo, done, all, j);
        MoveOneAlias(orig, a, c, done, j);
        todo := todo - {j};
        done := done + {j};
      }
      AliasesMovedAll(orig, a, c, done);
    }

    /** One turn of the alias pass: alias `j` is re-pointed at `c`, or
        destroyed, as `MovedAliases` says. */
    method MoveOneAlias(ghost orig: map<nat, Relation>, a: string, c: string, ghost done: set<nat>, j: nat)
      requires j in orig && j !in done && EndsAt(orig[j], a) && !HasActiveAliasFrom(orig, c)
      requires store.aliases == AliasesMovedOn(orig, a, c, done)
      modifies store`aliases
      ensures store.aliases == AliasesMovedOn(orig, a, c, done + {j})
    {
      AliasMoveStep(orig, a, c, done, j);
      RepointAlias(j, c);
    }

    /** `ta.consequent_name = c; ta.save`, and `ta.destroy` when the save
        failed with the self-reference message. */
    method RepointAlias(j: nat, c: string)
      requires j in store.aliases
      modifies store`aliases
      ensures var r := old(store.aliases)[j].(consequent := c);
        var errs := AliasErrors(old(store.aliases), j, r);
        store.aliases == if errs == [] then old(store.aliases)[j := r]
                         else if SelfReference in errs then old(store.aliases) - {j}
                         else old(store.aliases)
    {
      var r := store.aliases[j].(consequent := c);
      var errs := AliasErrors(store.aliases, j, r);
      if errs == [] {
        store.aliases := store.aliases[j := r];
      } else if SelfReference in errs {
        store.aliases := store.aliases - {j};
      }
    }

    /** The same for an implication, whose only validation here is the
        self-reference rule. */
    method RepointImplication(j: nat, c: string, from: bool)
      requires j in store.implications
      modifies store`implications
      ensures var r := Repointed(old(store.implications)[j], c, from);
        store.implications == if r.antecedent != r.consequent then old(store.implications)[j := r]
                              else old(store.implications) - {j}
    {
      var r := Repointed(store.implications[j], c, from);
      if r.antecedent != r.consequent {
        store.implications := store.implications[j := r];
      } else {
        store.implications := store.implications - {j};
      }
    }

    /** One turn of an implication pass: implication `j` is re-pointed at `c`,
        or destroyed when that makes it a self-loop. */
    method MoveOneImplication(ghost orig: map<nat, Relation>, c: string, from: bool, ghost done: set<nat>, j: nat)
      requires j in orig && j !in done
      requires store.implications == ImplicationsMovedOn(orig, c, from, done)
      modifies store`implications
      ensures store.implications == ImplicationsMovedOn(orig, c, from, done + {j})
    {
      ImplicationMoveStep(orig, c, from, done, j);
      RepointImplication(j, c, from);
    }

    /** One pass over the implications whose endpoint (the antecedent when
        `from`, else the consequent) is `a`. */
    method MoveImplications(a: string, c: string, from: bool)
      requires a != c
      modifies store`implications
      ensures store.implications == if from then MovedImplicationsFrom(old(store.implications), a, c)
                                    else MovedImplicationsTo(old(store.implications), a, c)
    {
      ghost var orig := store.implications;
      var todo := set j | j in store.implications && Endpoint(store.implications[j], from) == a;
      ghost var all := todo;
      ghost var done: set<nat> := {};
      ImplicationsMovedOnNothing(orig, c, from);
      while todo != {}
        invariant todo !! done && todo + done == all
        invariant store.implications == ImplicationsMovedOn(orig, c, from, done)
        decreases |todo|
      {
        var j :| j in todo;
        WorklistStep(todo, done, all, j);
        MoveOneImplication(orig, c, from, done, j);
        todo := todo - {j};
        done := done + {j};
      }
      ImplicationsMovedAll(orig, a, c, from, done);
    }

    /** `ensure_category_consistency`: four early returns, then the
        consequent takes the antecedent's category. */
    method EnsureCategoryConsistency(a: string, c: string, cutoff: int)
      requires a in store.tags && c in store.tags
      modifies store`tags
      ensures store.Snapshot() == WithCategoryConsistency(old(store.Snapshot()), a, c, cutoff)
    {
      var ante := store.tags[a];
      var cons := store.tags[c];
      if cons.postCount > cutoff { return; }
      if cons.isLocked { return; }
      if cons.category != General { return; }
      if ante.category == General { return; }
      store.tags := store.tags[c := cons.(category := ante.category)];
    }

    /** `update_posts_locked_tags` (with no overrides) and its undo variant
        (pattern `c`, overrides `{c => a}`): each post whose locked tags
        mention the pattern gets them rewritten by `to_aliased_query`. */
    method UpdatePostsLockedTags(pattern: string, cats: seq<string>, overrides: map<string, string>)
      requires UniqueAntecedents(store.aliases)
      modifies store`lockedTags
      ensures store.Snapshot() == old(store.Snapshot()).(lockedTags :=
                FixedQueries(old(store.lockedTags), pattern, cats, ActiveTable(store.aliases), overrides))
    {
      RewriteLockedTags(pattern, cats, ActiveTable(store.aliases), overrides);
    }

    /** The loop of `update_posts_locked_tags`, against a fixed alias table. */
    method RewriteLockedTags(pattern: string, cats: seq<string>, table: map<string, string>, overrides: map<string, string>)
      modifies store`lockedTags
      ensures store.lockedTags == FixedQueries(old(store.lockedTags), pattern, cats, table, overrides)
    {
      ghost var orig := store.lockedTags;
      var todo := Mentioning(store.lockedTags, pattern);
      ghost var all := todo;
      ghost var target := FixedQueries(orig, pattern, cats, table, overrides);
      ghost var done: set<nat> := {};
      OverwrittenNothing(orig, target);
      while todo != {}
        invariant todo !! done && todo + done == all
        invariant store.lockedTags == Overwritten(orig, target, done)
        decreases |todo|
      {
        var k :| k in todo;
        WorklistStep(todo, done, all, k);
        FixLockedTags(k, pattern, cats, table, overrides, orig, target, done);
        todo := todo - {k};
        done := done + {k};
      }
      OverwrittenAll(orig, pattern, cats, table, overrides, done);
    }

    /** `update_blacklists` and `update_blacklists_undo`, the same loop over
        users' blacklists. */
    method UpdateBlacklists(pattern: string, cats: seq<string>, overrides: map<string, string>)
      requires UniqueAntecedents(store.aliases)
      modifies store`blacklists
      ensures store.Snapshot() == old(store.Snapshot()).(blacklists :=
                FixedQueries(old(store.blacklists), pattern, cats, ActiveTable(store.aliases), overrides))
    {
      RewriteBlacklists(pattern, cats, ActiveTable(store.aliases), overrides);
    }

    /** The loop of `update_blacklists`, against a fixed alias table. */
    method RewriteBlacklists(pattern: string, cats: seq<string>, table: map<string, string>, overrides: map<string, string>)
      modifies store`blacklists
      ensures store.blacklists == FixedQueries(old(store.blacklists), pattern, cats, table, overrides)
    {
      ghost var orig := store.blacklists;
      var todo := Mentioning(store.blacklists, pattern);
      ghost var all := todo;
      ghost var target := FixedQueries(orig, pattern, cats, table, overrides);
      ghost var done: set<nat> := {};
      OverwrittenNothing(orig, target);
      while todo != {}
        invariant todo !! done && todo + done == all
        invariant store.blacklists == Overwritten(orig, target, done)
        decreases |todo|
      {
        var k :| k in todo;
        WorklistStep(todo, done, all, k);
        FixBlacklist(k, pattern, cats, table, overrides, orig, target, done);
        todo := todo - {k};
        done := done + {k};
      }
      OverwrittenAll(orig, pattern, cats, table, overrides, done);
    }

    /** One post's `update_attribute(:locked_tags, ...)`: record `k` of the loop gets its
        rewritten text, which moves it to the done part. */
    method FixLockedTags(k: nat, pattern: string, cats: seq<string>, table: map<string, string>,
                          overrides: map<string, string>, ghost orig: map<nat, string>, ghost target: map<nat, string>, ghost done: set<nat>)
      requires k in Mentioning(orig, pattern) && k !in done
      requires target == FixedQueries(orig, pattern, cats, table, overrides) && done <= target.Keys
      requires store.lockedTags == Overwritten(orig, target, done)
      modifies store`lockedTags
      ensures store.lockedTags == Overwritten(orig, target, done + {k})
    {
      OverwrittenStep(orig, target, done, k);
      var fixed := AliasQuery.ToAliasedQuery(store.lockedTags[k], cats, table, overrides);
      store.lockedTags := store.lockedTags[k := fixed];
    }

    /** One user's `update_column(:blacklisted_tags, ...)`: record `k` of the loop gets its
        rewritten text, which moves it to the done part. */
    method FixBlacklist(k: nat, pattern: string, cats: seq<string>, table: map<string, string>,
                          overrides: map<string, string>, ghost orig: map<nat, string>, ghost target: map<nat, string>, ghost done: set<nat>)
      requires k in Mentioning(orig, pattern) && k !in done
      requires target == FixedQueries(orig, pattern, cats, table, overrides) && done <= target.Keys
      requires store.blacklists == Overwritten(orig, target, done)
      modifies store`blacklists
      ensures store.blacklists == Overwritten(orig, target, done + {k})
    {
      OverwrittenStep(orig, target, done, k);
      var fixed := AliasQuery.ToAliasedQuery(store.blacklists[k], cats, table, overrides);
      store.blacklists := store.blacklists[k := fixed];
    }

    /** `update_posts`: every post tagged `a` gets the diff `-a c`. */
    method UpdatePosts(a: string, c: string)
      modifies store`posts
      ensures store.Snapshot() == WithPostsRetagged(old(store.Snapshot()), a, c)
    {
      ghost var orig := store.posts;
      var todo := TaggedWith(store.posts, a);
      ghost var all := todo;
      ghost var done: set<nat> := {};
      while todo != {}
        invariant todo !! done && todo + done == all
        invariant all <= orig.Keys
        invariant store.posts == PostsRetaggedOn(orig, a, c, done)
        decreases |todo|
      {
        var p :| p in todo;
        WorklistStep(todo, done, all, p);
        PostsRetaggedStep(orig, a, c, done, p);
        store.posts := store.posts[p := Retag(store.posts[p], a, c)];
        todo := todo - {p};
        done := done + {p};
      }
      PostsRetaggedAll(orig, a, c, done);
    }

    /** `update_followers`: each follower of `a` follows `c`, then `c`'s
        count is recounted and `a`'s set to zero. */
    method UpdateFollowers(a: string, c: string)
      requires a in store.tags && c in store.tags
      modifies store`followers, store`tags
      ensures store.Snapshot() == WithFollowersMoved(old(store.Snapshot()), a, c)
    {
      MoveFollowers(a, c);
      store.tags := store.tags[c := store.tags[c].(followerCount := FollowerCount(store.followers, c))];
      store.tags := store.tags[a := store.tags[a].(followerCount := 0)];
    }

    /** The loop of `update_followers`. */
    method MoveFollowers(a: string, c: string)
      modifies store`followers
      ensures store.followers == MovedFollowers(old(store.followers), a, c)
    {
      ghost var orig := store.followers;
      var todo := Following(store.followers, a);
      ghost var all := todo;
      ghost var done: set<nat> := {};
      while todo != {}
        invariant todo !! done && todo + done == all
        invariant all <= orig.Keys
        invariant store.followers == FollowersMovedOn(orig, c, done)
        decreases |todo|
      {
        var f :| f in todo;
        WorklistStep(todo, done, all, f);
        FollowersMovedStep(orig, c, done, f);
        store.followers := store.followers[f := c];
        todo := todo - {f};
        done := done + {f};
      }
      FollowersMovedAll(orig, a, c, done);
    }

    /** `rename_artist`. */
    method RenameArtist(a: string, c: string)
      requires a in store.tags
      modifies store`artists
      ensures store.Snapshot() == WithArtistRenamed(old(store.Snapshot()), a, c)
    {
      if store.tags[a].category == ArtistCategory && HasArtist(store.artists, a) && !HasArtist(store.artists, c) {
        store.artists := Renamed(store.artists, a, c);
      }
    }

    /** `rename_artist_undo`. */
    method RenameArtistUndo(a: string, c: string)
      requires c in store.tags
      modifies store`artists
      ensures store.Snapshot() == WithArtistRenameUndone(old(store.Snapshot()), a, c)
    {
      if store.tags[c].category == ArtistCategory && HasArtist(store.artists, c) && !HasArtist(store.artists, a) {
        store.artists := Renamed(store.artists, c, a);
      }
    }

    /** `fix_post_count` of both tags, each only when it exists. */
    method FixPostCounts(a: string, c: string)
      modifies store`tags
      ensures store.Snapshot() == WithPostCountsFixed(old(store.Snapshot()), a, c)
    {
      if a in store.tags {
        store.tags := store.tags[a := store.tags[a].(postCount := PostCount(store.posts, a))];
      }
      if c in store.tags {
        store.tags := store.tags[c := store.tags[c].(postCount := PostCount(store.posts, c))];
      }
    }

    /** `create_undo_information`: a new undo row listing, in id order, the
        posts tagged with `a`. */
    method CreateUndoInformation(a: string)
      modifies store`undos
      ensures store.Snapshot() == WithUndoCaptured(old(store.Snapshot()), id, a)
    {
      var ids := SortedPostIds(TaggedWith(store.posts, a));
      var u := AllocateUndoId(store.undos);
      store.undos := store.undos[u := Undo(id, ids, false)];
    }

    /** `update_posts_undo`: the posts of the unapplied undo rows get the
        diff `-c a`, then both post counts are fixed. */
    method UpdatePostsUndo(a: string, c: string)
      modifies store`posts, store`tags
      ensures store.Snapshot() == WithPostsUndone(old(store.Snapshot()), id, a, c)
    {
      PostsUndoneIs(store.Snapshot(), id, a, c);
      UndoPosts(a, c);
      FixPostCounts(a, c);
    }

    /** The two nested loops of `update_posts_undo`. */
    method UndoPosts(a: string, c: string)
      modifies store`posts
      ensures store.posts == PostsRetaggedOn(old(store.posts), c, a, UndoPostIds(store.undos, id))
    {
      ghost var orig := store.posts;
      var todo := Unapplied(store.undos, id);
      ghost var all := todo;
      ghost var done: set<nat> := {};
      while todo != {}
        invariant todo !! done && todo + done == all && all <= store.undos.Keys
        invariant store.posts == PostsRetaggedOn(orig, c, a, IdsOf(store.undos, done))
        decreases |todo|
      {
        var u :| u in todo;
        WorklistStep(todo, done, all, u);
        IdsOfStep(store.undos, done, u);
        UndoRowPosts(store.undos[u].postIds, a, c, orig, IdsOf(store.undos, done));
        todo := todo - {u};
        done := done + {u};
      }
      IdsOfAll(store.undos, id, done);
    }

    /** `Post.where(id: tu.undo_data).find_each`: a listed post that is gone
        is skipped. */
    method UndoRowPosts(ids: seq<nat>, a: string, c: string, ghost orig: map<nat, set<string>>, ghost seen: set<nat>)
      requires store.posts == PostsRetaggedOn(orig, c, a, seen)
      modifies store`posts
      ensures store.posts == PostsRetaggedOn(orig, c, a, seen + Elements(ids))
    {
      var i := 0;
      while i < |ids|
        invariant 0 <= i <= |ids|
        invariant store.posts == PostsRetaggedOn(orig, c, a, seen + Elements(ids[..i]))
      {
        PrefixElements(ids, i);
        assert seen + Elements(ids[..i + 1]) == seen + Elements(ids[..i]) + {ids[i]};
        if ids[i] in store.posts {
          PostsRetaggedStep(orig, c, a, seen + Elements(ids[..i]), ids[i]);
          store.posts := store.posts[ids[i] := Retag(store.posts[ids[i]], c, a)];
        } else {
          PostsRetaggedSkip(orig, c, a, seen + Elements(ids[..i]), ids[i]);
        }
        i := i + 1;
      }
      assert ids[..i] == ids;
    }

    /** `update(...)` of the alias row: written only when it validates. */
    method Save(r: Relation)
      modifies store`aliases
      ensures store.Snapshot() == SaveIfValid(old(store.Snapshot()), id, r)
    {
      if AliasErrors(store.aliases, id, r) == [] {
        store.aliases := store.aliases[id := r];
      }
    }

    /** `forum_updater.update(..., action) if update_topic`. */
    method UpdateForum(action: ForumAction, updateTopic: bool)
      modifies store`log
      ensures store.Snapshot() == WithForumUpdate(old(store.Snapshot()), id, action, updateTopic)
    {
      if updateTopic {
        store.log := store.log + [ForumUpdate(id, action)];
      }
    }

    /** `approve!`. */
    method Approve(approver: nat, updateTopic: bool)
      requires id in store.aliases
      modifies store`aliases, store`undos, store`log
      ensures store.Snapshot() == Requests.Approve(old(store.Snapshot()), id, approver, updateTopic)
    {
      var r := store.aliases[id];
      Save(r.(status := Queued, approver := Some(approver)));
      CreateUndoInformation(r.antecedent);
      store.log := store.log + [ProcessJobQueued(id, updateTopic)];
    }

    /** `undo!`: only queues the undo job. */
    method RequestUndo()
      modifies store`log
      ensures store.Snapshot() == UndoRequest(old(store.Snapshot()), id)
    {
      store.log := store.log + [UndoJobQueued(id)];
    }

    /** `reject!`. */
    method Reject(updateTopic: bool)
      requires id in store.aliases
      modifies store`aliases, store`log
      ensures store.Snapshot() == Requests.Reject(old(store.Snapshot()), id, updateTopic)
    {
      Save(store.aliases[id].(status := Deleted));
      UpdateForum(Rejected, updateTopic);
    }

    /** `update_posts_locked_tags_undo` and `update_blacklists_undo`. */
    method RestoreQueries(a: string, c: string, cats: seq<string>)
      requires UniqueAntecedents(store.aliases)
      modifies store`lockedTags, store`blacklists
      ensures store.Snapshot() == WithQueriesRestored(old(store.Snapshot()), a, c, cats)
    {
      UpdatePostsLockedTags(c, cats, map[c := a]);
      UpdateBlacklists(c, cats, map[c := a]);
    }

    /** `process_undo!`: `raised` is the message of the exception, if one
        is raised. */
    method ProcessUndo(cats: seq<string>, updateTopic: bool) returns (raised: Option<string>)
      requires HasEndpoints(store.Snapshot(), id) && UniqueAntecedents(store.aliases)
      modifies store
      ensures var o := Requests.ProcessUndo(old(store.Snapshot()), id, cats, updateTopic);
        store.Snapshot() == o.db && raised == (if o.Raised? then Some(o.message) else None)
    {
      var r := store.aliases[id];
      var errs := AliasErrors(store.aliases, id, r);
      if errs != [] {
        return Some(Messages(errs, r, "; "));
      }
      var a := r.antecedent;
      var c := r.consequent;
      SaveIfValidKeepsUnique(store.Snapshot(), id, r.(status := Pending));
      Save(r.(status := Pending));
      RestoreQueries(a, c, cats);
      UpdatePostsUndo(a, c);
      RenameArtistUndo(a, c);
      UpdateForum(Undone, updateTopic);
      store.undos := MarkApplied(store.undos, id);
      raised := None;
    }

    /** The rescue's end: the FAILED forum update, then `update_columns`,
        which writes the error status without validation. */
    method MarkFailed(message: string, updateTopic: bool)
      requires id in store.aliases
      modifies store`aliases, store`log
      ensures store.Snapshot() == Lifecycle.MarkFailed(old(store.Snapshot()), id, message, updateTopic)
    {
      UpdateForum(ForumAction.Failed, updateTopic);
      store.aliases := store.aliases[id := store.aliases[id].(status := Error(message))];
    }

    /** `process!`: attempts are retried after sleeping `2**tries` seconds
        while fewer than five retries were made outside the test
        environment; the last failure is reported and written to the row.
        `faults` says which exception, if any, each attempt meets. */
    method Process(a: string, c: string, faults: seq<Option<Fault>>, cfg: Config, updateTopic: bool)
      requires Ready(store.Snapshot(), id, a, c)
      modifies store
      ensures store.Snapshot() == Lifecycle.Process(old(store.Snapshot()), id, a, c, faults, cfg, updateTopic)
    {
      var tries := 0;
      while true
        invariant tries <= MaxRetries && Ready(store.Snapshot(), id, a, c)
        invariant ProcessFrom(store.Snapshot(), id, a, c, faults, tries, cfg, updateTopic) ==
                  Lifecycle.Process(old(store.Snapshot()), id, a, c, faults, cfg, updateTopic)
        decreases MaxRetries - tries
      {
        var retry := AttemptAndRescue(a, c, faults, tries, cfg, updateTopic);
        if !retry {
          return;
        }
        tries := tries + 1;
      }
    }

    /** The body of `process!` for its `tries`-th attempt together with its
        rescue clause: either the call ends here, or it sleeps and asks for
        the next attempt, which then carries the rest of the call. */
    method AttemptAndRescue(a: string, c: string, faults: seq<Option<Fault>>, tries: nat, cfg: Config, updateTopic: bool)
      returns (retry: bool)
      requires tries <= MaxRetries && Ready(store.Snapshot(), id, a, c)
      modifies store
      ensures !retry ==>
        store.Snapshot() == ProcessFrom(old(store.Snapshot()), id, a, c, faults, tries, cfg, updateTopic)
      ensures retry ==> tries < MaxRetries && Ready(store.Snapshot(), id, a, c)
      ensures retry ==>
        ProcessFrom(store.Snapshot(), id, a, c, faults, tries + 1, cfg, updateTopic) ==
        ProcessFrom(old(store.Snapshot()), id, a, c, faults, tries, cfg, updateTopic)
    {
      RetryStep(store.Snapshot(), id, a, c, faults, tries, cfg, updateTopic);
      var raised := Attempt(a, c, FaultOf(faults, tries), cfg, updateTopic);
      if raised.None? {
        return false;
      }
      if tries < MaxRetries && !cfg.testEnv {
        Retried(Raised(store.Snapshot(), raised.value), id, a, c, faults, tries, cfg, updateTopic);
        store.log := store.log + [Slept(Pow2(tries + 1))];
        return true;
      }
      MarkFailed(raised.value, updateTopic);
      return false;
    }

    /** One attempt of `process!`'s body; `raised` is the message of the
        exception it raises, if any. */
    method Attempt(a: string, c: string, fault: Option<Fault>, cfg: Config, updateTopic: bool)
      returns (raised: Option<string>)
      requires Ready(store.Snapshot(), id, a, c)
      modifies store
      ensures var o := Lifecycle.Attempt(old(store.Snapshot()), id, a, c, fault, cfg, updateTopic);
        store.Snapshot() == o.db && raised == (if o.Raised? then Some(o.message) else None)
    {
      if Interrupts(fault, MarkProcessing) {
        return Some(fault.value.message);
      }
      var r := store.aliases[id].(status := Processing);
      var errs := AliasErrors(store.aliases, id, r);
      if errs != [] {
        return Some(ValidationFailed(errs, r));
      }
      SaveKeepsUnique(store.aliases, id, r);
      ProcessingUnobstructed(store.aliases, id, r);
      store.aliases := store.aliases[id := r];
      raised := Proceed(a, c, fault, cfg, updateTopic);
    }

    /** The statements after `update!(status: "processing")`, each run
        unless the fault interrupts the attempt just before it. The
        statements are spread over this method and the `ProceedFrom`
        methods it hands over to, one for each statement from
        `update_posts_locked_tags` on. */
    method Proceed(a: string, c: string, fault: Option<Fault>, cfg: Config, updateTopic: bool)
      returns (raised: Option<string>)
      requires Ready(store.Snapshot(), id, a, c) && a != c && !HasActiveAliasFrom(store.aliases, c)
      modifies store
      ensures var o := Lifecycle.Proceed(old(store.Snapshot()), id, a, c, fault, cfg, updateTopic);
        store.Snapshot() == o.db && raised == (if o.Raised? then Some(o.message) else None)
    {
      ProceedResumes(store.Snapshot(), id, a, c, fault, cfg, updateTopic);
      if Interrupts(fault, MoveRelations) {
        ResumeInterrupted(store.Snapshot(), id, a, c, MoveRelations, fault, cfg, updateTopic);
        return Some(fault.value.message);
      }
      ghost var d0 := store.Snapshot();
      ResumeStep(d0, id, a, c, MoveRelations, fault, cfg, updateTopic);
      MoveAliasesAndImplications(a, c);
      assert store.Snapshot() == StepOf(d0, id, a, c, MoveRelations, cfg, updateTopic);
      if Interrupts(fault, CategoryConsistency) {
        ResumeInterrupted(store.Snapshot(), id, a, c, CategoryConsistency, fault, cfg, updateTopic);
        return Some(fault.value.message);
      }
      ghost var d1 := store.Snapshot();
      ResumeStep(d1, id, a, c, CategoryConsistency, fault, cfg, updateTopic);
      EnsureCategoryConsistency(a, c, cfg.cutoff);
      assert store.Snapshot() == StepOf(d1, id, a, c, CategoryConsistency, cfg, updateTopic);
      raised := ProceedFromLockedTags(a, c, fault, cfg, updateTopic);
    }

    /** The statements of `process!` from `update_posts_locked_tags` on. */
    method ProceedFromLockedTags(a: string, c: string, fault: Option<Fault>, cfg: Config, updateTopic: bool)
      returns (raised: Option<string>)
      requires Ready(store.Snapshot(), id, a, c) && a != c
      modifies store
      ensures var o := Resume(old(store.Snapshot()), id, a, c, LockedTags, fault, cfg, updateTopic);
        store.Snapshot() == o.db && raised == (if o.Raised? then Some(o.message) else None)
    {
      if Interrupts(fault, LockedTags) {
        ResumeInterrupted(store.Snapshot(), id, a, c, LockedTags, fault, cfg, updateTopic);
        return Some(fault.value.message);
      }
      ghost var d := store.Snapshot();
      ResumeStep(d, id, a, c, LockedTags, fault, cfg, updateTopic);
      UpdatePostsLockedTags(a, cfg.categories, map[]);
      assert store.Snapshot() == StepOf(d, id, a, c, LockedTags, cfg, updateTopic);
      raised := ProceedFromBlacklists(a, c, fault, cfg, updateTopic);
    }

    /** The statements of `process!` from `update_blacklists` on. */
    method ProceedFromBlacklists(a: string, c: string, fault: Option<Fault>, cfg: Config, updateTopic: bool)
      returns (raised: Option<string>)
      requires Ready(store.Snapshot(), id, a, c) && a != c
      modifies store
      ensures var o := Resume(old(store.Snapshot()), id, a, c, Blacklists, fault, cfg, updateTopic);
        store.Snapshot() == o.db && raised == (if o.Raised? then Some(o.message) else None)
    {
      if Interrupts(fault, Blacklists) {
        ResumeInterrupted(store.Snapshot(), id, a, c, Blacklists, fault, cfg, updateTopic);
        return Some(fault.value.message);
      }
      ghost var d := store.Snapshot();
      ResumeStep(d, id, a, c, Blacklists, fault, cfg, updateTopic);
      UpdateBlacklists(a, cfg.categories, map[]);
      assert store.Snapshot() == StepOf(d, id, a, c, Blacklists, cfg, updateTopic);
      raised := ProceedFromPosts(a, c, fault, cfg, updateTopic);
    }

    /** The statements of `process!` from `update_posts` on. */
    method ProceedFromPosts(a: string, c: string, fault: Option<Fault>, cfg: Config, updateTopic: bool)
      returns (raised: Option<string>)
      requires Ready(store.Snapshot(), id, a, c) && a != c
      modifies store
      ensures var o := Resume(old(store.Snapshot()), id, a, c, RetagPosts, fault, cfg, updateTopic);
        store.Snapshot() == o.db && raised == (if o.Raised? then Some(o.message) else None)
    {
      if Interrupts(fault, RetagPosts) {
        ResumeInterrupted(store.Snapshot(), id, a, c, RetagPosts, fault, cfg, updateTopic);
        return Some(fault.value.message);
      }
      ghost var d := store.Snapshot();
      ResumeStep(d, id, a, c, RetagPosts, fault, cfg, updateTopic);
      UpdatePosts(a, c);
      assert store.Snapshot() == StepOf(d, id, a, c, RetagPosts, cfg, updateTopic);
      raised := ProceedFromFollowers(a, c, fault, cfg, updateTopic);
    }

    /** The statements of `process!` from `update_followers` on. */
    method ProceedFromFollowers(a: string, c: string, fault: Option<Fault>, cfg: Config, updateTopic: bool)
      returns (raised: Option<string>)
      requires Ready(store.Snapshot(), id, a, c) && a != c
      modifies store
      ensures var o := Resume(old(store.Snapshot()), id, a, c, Followers, fault, cfg, updateTopic);
        store.Snapshot() == o.db && raised == (if o.Raised? then Some(o.message) else None)
    {
      if Interrupts(fault, Followers) {
        ResumeInterrupted(store.Snapshot(), id, a, c, Followers, fault, cfg, updateTopic);
        return Some(fault.value.message);
      }
      ghost var d := store.Snapshot();
      ResumeStep(d, id, a, c, Followers, fault, cfg, updateTopic);
      UpdateFollowers(a, c);
      assert store.Snapshot() == StepOf(d, id, a, c, Followers, cfg, updateTopic);
      raised := ProceedFromArtist(a, c, fault, cfg, updateTopic);
    }

    /** The statements of `process!` from `rename_artist` on. */
    method ProceedFromArtist(a: string, c: string, fault: Option<Fault>, cfg: Config, updateTopic: bool)
      returns (raised: Option<string>)
      requires Ready(store.Snapshot(), id, a, c) && a != c
      modifies store
      ensures var o := Resume(old(store.Snapshot()), id, a, c, ArtistRename, fault, cfg, updateTopic);
        store.Snapshot() == o.db && raised == (if o.Raised? then Some(o.message) else None)
    {
      if Interrupts(fault, ArtistRename) {
        ResumeInterrupted(store.Snapshot(), id, a, c, ArtistRename, fault, cfg, updateTopic);
        return Some(fault.value.message);
      }
      ghost var d := store.Snapshot();
      ResumeStep(d, id, a, c, ArtistRename, fault, cfg, updateTopic);
      RenameArtist(a, c);
      assert store.Snapshot() == StepOf(d, id, a, c, ArtistRename, cfg, updateTopic);
      raised := ProceedFromForum(a, c, fault, cfg, updateTopic);
    }

    /** The statements of `process!` from the forum update on. */
    method ProceedFromForum(a: string, c: string, fault: Option<Fault>, cfg: Config, updateTopic: bool)
      returns (raised: Option<string>)
      requires Ready(store.Snapshot(), id, a, c) && a != c
      modifies store
      ensures var o := Resume(old(store.Snapshot()), id, a, c, ForumApproval, fault, cfg, updateTopic);
        store.Snapshot() == o.db && raised == (if o.Raised? then Some(o.message) else None)
    {
      if Interrupts(fault, ForumApproval) {
        ResumeInterrupted(store.Snapshot(), id, a, c, ForumApproval, fault, cfg, updateTopic);
        return Some(fault.value.message);
      }
      ghost var d := store.Snapshot();
      ResumeStep(d, id, a, c, ForumApproval, fault, cfg, updateTopic);
      UpdateForum(Approved, updateTopic);
      assert store.Snapshot() == StepOf(d, id, a, c, ForumApproval, cfg, updateTopic);
      raised := ProceedFromActivation(a, c, fault, cfg, updateTopic);
    }

    /** The statements of `process!` from `update(status: "active", ...)` on. */
    method ProceedFromActivation(a: string, c: string, fault: Option<Fault>, cfg: Config, updateTopic: bool)
      returns (raised: Option<string>)
      requires Ready(store.Snapshot(), id, a, c) && a != c
      modifies store
      ensures var o := Resume(old(store.Snapshot()), id, a, c, MarkActive, fault, cfg, updateTopic);
        store.Snapshot() == o.db && raised == (if o.Raised? then Some(o.message) else None)
    {
      if Interrupts(fault, MarkActive) {
        ResumeInterrupted(store.Snapshot(), id, a, c, MarkActive, fault, cfg, updateTopic);
        return Some(fault.value.message);
      }
      ghost var d := store.Snapshot();
      ResumeStep(d, id, a, c, MarkActive, fault, cfg, updateTopic);
      Save(store.aliases[id].(status := Active, postCount := store.tags[c].postCount));
      assert store.Snapshot() == StepOf(d, id, a, c, MarkActive, cfg, updateTopic);
      raised := ProceedFromPostCounts(a, c, fault, cfg, updateTopic);
    }

    /** The last statements of `process!`: the two `fix_post_count` calls. */
    method ProceedFromPostCounts(a: string, c: string, fault: Option<Fault>, cfg: Config, updateTopic: bool)
      returns (raised: Option<string>)
      requires Ready(store.Snapshot(), id, a, c) && a != c
      modifies store
      ensures var o := Resume(old(store.Snapshot()), id, a, c, Step.FixPostCounts, fault, cfg, updateTopic);
        store.Snapshot() == o.db && raised == (if o.Raised? then Some(o.message) else None)
    {
      if Interrupts(fault, Step.FixPostCounts) {
        ResumeInterrupted(store.Snapshot(), id, a, c, Step.FixPostCounts, fault, cfg, updateTopic);
        return Some(fault.value.message);
      }
      ResumeLast(store.Snapshot(), id, a, c, fault, cfg, updateTopic);
      FixPostCounts(a, c);
      return None;
    }
  }
}
