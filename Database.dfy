/**
 * The rows the alias lifecycle reads and writes, as one value, and what each
 * side step of `approve!`, `process!` and `process_undo!` does to them.
 *
 * Tags are keyed by name, posts, users' blacklists, tag followers, artists
 * and undo records by id. Forum updates, queued jobs and sleeps are appended
 * to an event log instead of being performed.
 */
module Database {
  import opened Wrappers
  import opened Text
  import opened TagGraph
  import AliasQuery

  /** The two categories the rules name (`TagCategory.general` and
      `TagCategory.artist`); any two distinct values behave the same. */
  const General: nat := 0
  const ArtistCategory: nat := 1

  datatype Tag = Tag(category: nat, isLocked: bool, postCount: int, followerCount: int)

  /** A `tag_rel_undos` row: the posts that carried the antecedent when the
      alias was approved. */
  datatype Undo = Undo(aliasId: nat, postIds: seq<nat>, applied: bool)

  datatype ForumAction = Approved | Failed | Rejected | Undone

  datatype Event =
    | ForumUpdate(aliasId: nat, action: ForumAction)
    | ProcessJobQueued(aliasId: nat, updateTopic: bool)
    | UndoJobQueued(aliasId: nat)
    | Slept(seconds: nat)

  /** `posts` holds each post's tags and `lockedTags` its locked tags;
      `blacklists` holds each user's blacklisted tags and `followers` the tag
      each tag-follower row points at. */
  datatype Db = Db(aliases: map<nat, Relation>, implications: map<nat, Relation>,
                   tags: map<string, Tag>, posts: map<nat, set<string>>, lockedTags: map<nat, string>,
                   blacklists: map<nat, string>, followers: map<nat, string>,
                   artists: map<nat, string>, undos: map<nat, Undo>, log: seq<Event>)

  predicate HasEndpoints(db: Db, id: nat) {
    id in db.aliases && db.aliases[id].antecedent in db.tags && db.aliases[id].consequent in db.tags
  }

  // ---------------------------------------------------------------------
  // Saving an alias

  function Messages(errs: seq<AliasError>, r: Relation, sep: string): string
    decreases |errs|
  {
    if errs == [] then ""
    else if |errs| == 1 then ErrorMessage(errs[0], r)
    else ErrorMessage(errs[0], r) + sep + Messages(errs[1..], r, sep)
  }

  /** The message of the exception `update!` raises on a failed validation. */
  function ValidationFailed(errs: seq<AliasError>, r: Relation): string {
    "Validation failed: " + Messages(errs, r, ", ")
  }

  /** `update(...)`: the row is written when validation passes; otherwise
      nothing changes and no exception is raised. */
  function SaveIfValid(db: Db, id: nat, r: Relation): Db {
    db.(aliases := if AliasErrors(db.aliases, id, r) == [] then db.aliases[id := r] else db.aliases)
  }

  /** A save that only happens when validation passes keeps antecedents
      unique. */
  lemma SaveIfValidKeepsUnique(db: Db, id: nat, r: Relation)
    requires UniqueAntecedents(db.aliases)
    ensures UniqueAntecedents(SaveIfValid(db, id, r).aliases)
  {
    if AliasErrors(db.aliases, id, r) == [] {
      SaveKeepsUnique(db.aliases, id, r);
    }
  }

  /** `forum_updater.update(..., action) if update_topic`. */
  function WithForumUpdate(db: Db, id: nat, action: ForumAction, updateTopic: bool): Db {
    db.(log := if updateTopic then db.log + [ForumUpdate(id, action)] else db.log)
  }

  // ---------------------------------------------------------------------
  // `ensure_category_consistency`

  /** The consequent's category afterwards: the antecedent's, unless the
      consequent is large, locked or not general, or the antecedent is
      general. */
  function ConsistentCategory(ante: Tag, cons: Tag, cutoff: int): nat {
    if cons.postCount > cutoff then cons.category
    else if cons.isLocked then cons.category
    else if cons.category != General then cons.category
    else if ante.category == General then cons.category
    else ante.category
  }

  /** The category changes exactly when all four guards let it through, and
      then it becomes the antecedent's. */
  lemma CategoryConsistencyRule(ante: Tag, cons: Tag, cutoff: int)
    ensures ConsistentCategory(ante, cons, cutoff) != cons.category <==>
              cons.postCount <= cutoff && !cons.isLocked && cons.category == General && ante.category != General
    ensures ConsistentCategory(ante, cons, cutoff) == cons.category ||
            ConsistentCategory(ante, cons, cutoff) == ante.category
  {
  }

  function WithCategoryConsistency(db: Db, a: string, c: string, cutoff: int): Db
    requires a in db.tags && c in db.tags
  {
    db.(tags := db.tags[c := db.tags[c].(category := ConsistentCategory(db.tags[a], db.tags[c], cutoff))])
  }

  // ---------------------------------------------------------------------
  // Locked tags and blacklists: rewritten with `to_aliased_query`

  /** `update_posts_locked_tags`, `update_blacklists` and their undo
      variants: every text that mentions `pattern` (ignoring case) is
      rewritten with `to_aliased_query`; the others are left alone. */
  function FixedQueries(texts: map<nat, string>, pattern: string, cats: seq<string>,
                        table: map<string, string>, overrides: map<string, string>): map<nat, string>
  {
    map k | k in texts ::
      if ContainsIgnoringCase(texts[k], pattern)
      then AliasQuery.AliasedQuery(texts[k], cats, table, overrides)
      else texts[k]
  }

  /** Once `a -> c` is in the table and nothing leads back to `a`, no token of
      a rewritten text names `a`; the others are left as they were. */
  lemma FixedQueriesDropAntecedent(texts: map<nat, string>, a: string, cats: seq<string>,
                                   table: map<string, string>)
    requires a in table
    requires forall n :: n in table ==> AliasQuery.IsTagName(table[n]) && table[n] != a
    ensures FixedQueries(texts, a, cats, table, map[]).Keys == texts.Keys
    ensures forall k :: k in texts && ContainsIgnoringCase(texts[k], a) ==>
              forall w :: w in Words(FixedQueries(texts, a, cats, table, map[])[k]) ==>
                AliasQuery.TokenName(w) != a
    ensures forall k :: k in texts && !ContainsIgnoringCase(texts[k], a) ==>
              FixedQueries(texts, a, cats, table, map[])[k] == texts[k]
  {
    forall k | k in texts && ContainsIgnoringCase(texts[k], a) {
      AliasQuery.NoAntecedentLeft(texts[k], cats, table, map[], a);
    }
  }

  /** Every alias ends at a single tag name: what tag-name normalisation
      guarantees of a consequent. */
  predicate TagNameConsequents(aliases: map<nat, Relation>) {
    forall j :: j in aliases ==> AliasQuery.IsTagName(aliases[j].consequent)
  }

  /** The move re-points aliases only to `c`, so when `c` is a tag name every
      consequent stays one. */
  lemma MovedTagNames(aliases: map<nat, Relation>, a: string, c: string)
    requires TagNameConsequents(aliases) && AliasQuery.IsTagName(c)
    ensures TagNameConsequents(MovedAliases(aliases, a, c))
  {
    MovedConsequents(aliases, a, c);
  }

  /** Saving a row that keeps its consequent keeps every consequent a tag
      name. */
  lemma SavedTagNames(aliases: map<nat, Relation>, id: nat, r: Relation)
    requires TagNameConsequents(aliases) && id in aliases && r.consequent == aliases[id].consequent
    ensures TagNameConsequents(aliases[id := r])
  {
    var saved := aliases[id := r];
    forall j | j in saved
      ensures AliasQuery.IsTagName(saved[j].consequent)
    {
      assert j in aliases;
    }
  }

  /** A table built from aliases that end at tag names, none of the active
      ones at `a`, maps every antecedent to a tag name other than `a`. */
  lemma ActiveTableAvoids(aliases: map<nat, Relation>, a: string)
    requires UniqueAntecedents(aliases) && TagNameConsequents(aliases)
    requires forall id :: id in aliases && InActiveScope(aliases[id].status) ==> !EndsAt(aliases[id], a)
    ensures forall n :: n in ActiveTable(aliases) ==>
              AliasQuery.IsTagName(ActiveTable(aliases)[n]) && ActiveTable(aliases)[n] != a
  {
    ActiveTableSpec(aliases);
    forall n | n in ActiveTable(aliases)
      ensures AliasQuery.IsTagName(ActiveTable(aliases)[n]) && ActiveTable(aliases)[n] != a
    {
      var j :| j in aliases && InActiveScope(aliases[j].status) && aliases[j].antecedent == n &&
               aliases[j].consequent == ActiveTable(aliases)[n];
    }
  }

  /** No word of any text names `a`, negated or not. */
  predicate NoTokenNames(texts: map<nat, string>, a: string) {
    forall k, w :: k in texts && w in Words(texts[k]) ==> AliasQuery.TokenName(w) != a
  }

  /** A text with a word naming `a` mentions `a`, so the `ILIKE` pre-filter
      lets it through. */
  lemma NamedOccurs(s: string, w: string, a: string)
    requires w in Words(s) && AliasQuery.TokenName(w) == a
    ensures ContainsIgnoringCase(s, a)
  {
    var i := WordOccurs(s, w);
    var j := if AliasQuery.IsNegated(w) then i + 1 else i;
    assert s[j..j + |a|] == a;
    assert OccursAt(s, a, j);
  }

  /** After the rewrite with `a -> c` in the table, no text has a word naming
      `a`: the rewritten ones lose it, and the ones left alone never had one. */
  lemma FixedQueriesFreeOf(texts: map<nat, string>, a: string, cats: seq<string>,
                           table: map<string, string>)
    requires a in table
    requires forall n :: n in table ==> AliasQuery.IsTagName(table[n]) && table[n] != a
    ensures NoTokenNames(FixedQueries(texts, a, cats, table, map[]), a)
  {
    var r := FixedQueries(texts, a, cats, table, map[]);
    FixedQueriesDropAntecedent(texts, a, cats, table);
    forall k, w | k in r && w in Words(r[k])
      ensures AliasQuery.TokenName(w) != a
    {
      if !ContainsIgnoringCase(texts[k], a) && AliasQuery.TokenName(w) == a {
        NamedOccurs(texts[k], w, a);
      }
    }
  }

  /** Every token of `before` that names `c` appears in `after` as a word
      naming `a`, negated exactly when the token was. */
  predicate NamesRestored(before: string, after: string, a: string, c: string, cats: seq<string>) {
    forall x :: x in AliasQuery.QueryTokens(before, cats) && x != "-" && AliasQuery.TokenName(x) == c ==>
      exists w :: w in Words(after) && AliasQuery.TokenName(w) == a && (AliasQuery.IsNegated(w) <==> AliasQuery.IsNegated(x))
  }

  /** The undo variants rewrite with the override `c -> a`: every text that
      mentions `c` gets each token naming `c` back as `a`, negation kept; the
      others are left as they were. */
  lemma FixedQueriesRestoreAntecedent(texts: map<nat, string>, a: string, c: string, cats: seq<string>,
                                      table: map<string, string>)
    requires AliasQuery.IsTagName(a)
    requires forall n :: n in table ==> AliasQuery.IsTagName(table[n])
    ensures FixedQueries(texts, c, cats, table, map[c := a]).Keys == texts.Keys
    ensures forall k :: k in texts && ContainsIgnoringCase(texts[k], c) ==>
              NamesRestored(texts[k], FixedQueries(texts, c, cats, table, map[c := a])[k], a, c, cats)
    ensures forall k :: k in texts && !ContainsIgnoringCase(texts[k], c) ==>
              FixedQueries(texts, c, cats, table, map[c := a])[k] == texts[k]
  {
    forall k | k in texts && ContainsIgnoringCase(texts[k], c) {
      AliasQuery.OverrideApplied(texts[k], cats, table, map[c := a], c);
    }
  }

  // ---------------------------------------------------------------------
  // Post tags

  /** The tag diff `-from to`. */
  function Retag(tags: set<string>, from: string, to: string): set<string> {
    tags - {from} + {to}
  }

  /** Undoing the diff restores a post that had `a` and not `c`. */
  lemma RetagRoundTrip(tags: set<string>, a: string, c: string)
    requires a in tags && c !in tags
    ensures Retag(Retag(tags, a, c), c, a) == tags
  {
    assert Retag(Retag(tags, a, c), c, a) == tags - {c} + {a};
  }

  /** `update_posts`: every post tagged `a` is tagged `c` instead. */
  function RetaggedPosts(posts: map<nat, set<string>>, a: string, c: string): map<nat, set<string>> {
    map p | p in posts :: if a in posts[p] then Retag(posts[p], a, c) else posts[p]
  }

  /** Afterwards no post carries `a`; a post carries `c` exactly when it
      carried either tag before, and keeps every other tag it had. */
  lemma RetaggedPostsSpec(posts: map<nat, set<string>>, a: string, c: string)
    requires a != c
    ensures var r := RetaggedPosts(posts, a, c);
      r.Keys == posts.Keys &&
      (forall p :: p in r ==> a !in r[p]) &&
      (forall p :: p in posts ==> (c in r[p] <==> a in posts[p] || c in posts[p])) &&
      (forall p, t :: p in posts && t != a && t != c ==> (t in r[p] <==> t in posts[p])) &&
      TaggedWith(r, a) == {}
  {
  }

  function TaggedWith(posts: map<nat, set<string>>, t: string): set<nat> {
    set p | p in posts && t in posts[p]
  }

  function PostCount(posts: map<nat, set<string>>, t: string): nat {
    |TaggedWith(posts, t)|
  }

  /** `fix_post_count` of both tags, when they exist. */
  function WithPostCountsFixed(db: Db, a: string, c: string): Db {
    var tags1 := if a in db.tags then db.tags[a := db.tags[a].(postCount := PostCount(db.posts, a))] else db.tags;
    var tags2 := if c in tags1 then tags1[c := tags1[c].(postCount := PostCount(db.posts, c))] else tags1;
    db.(tags := tags2)
  }

  // ---------------------------------------------------------------------
  // `update_followers`

  function MovedFollowers(followers: map<nat, string>, a: string, c: string): map<nat, string> {
    map f | f in followers :: if followers[f] == a then c else followers[f]
  }

  function Following(followers: map<nat, string>, t: string): set<nat> {
    set f | f in followers && followers[f] == t
  }

  function FollowerCount(followers: map<nat, string>, t: string): nat {
    |Following(followers, t)|
  }

  function WithFollowersMoved(db: Db, a: string, c: string): Db
    requires a in db.tags && c in db.tags
  {
    var fs := MovedFollowers(db.followers, a, c);
    var tags1 := db.tags[c := db.tags[c].(followerCount := FollowerCount(fs, c))];
    db.(followers := fs, tags := tags1[a := tags1[a].(followerCount := 0)])
  }

  /** Afterwards nobody follows `a`; `c` is followed by those who followed
      either tag and its count says so; `a`'s count is zero; every other
      follower and every other tag is untouched. */
  lemma FollowersMovedSpec(db: Db, a: string, c: string)
    requires a in db.tags && c in db.tags && a != c
    ensures var db' := WithFollowersMoved(db, a, c);
      db'.followers.Keys == db.followers.Keys &&
      (forall f :: f in db'.followers ==> db'.followers[f] != a) &&
      (forall f :: f in db.followers ==>
         (db'.followers[f] == c <==> db.followers[f] == a || db.followers[f] == c)) &&
      (forall f :: f in db.followers && db.followers[f] != a ==> db'.followers[f] == db.followers[f]) &&
      db'.tags[c].followerCount == FollowerCount(db'.followers, c) &&
      db'.tags[a].followerCount == 0 &&
      (forall t :: t in db.tags && t != a && t != c ==> db'.tags[t] == db.tags[t])
  {
  }

  /** The count `update_followers` stores for `c` is what it had plus what
      `a` had, counted over the follower rows. */
  lemma FollowerCountAfterMove(followers: map<nat, string>, a: string, c: string)
    requires a != c
    ensures FollowerCount(MovedFollowers(followers, a, c), c) ==
              FollowerCount(followers, a) + FollowerCount(followers, c)
  {
    var fs := MovedFollowers(followers, a, c);
    var sa := Following(followers, a);
    var sc := Following(followers, c);
    assert Following(fs, c) == sa + sc;
    assert sa * sc == {};
  }

  // ---------------------------------------------------------------------
  // `rename_artist` and `rename_artist_undo`

  predicate HasArtist(artists: map<nat, string>, name: string) {
    exists i :: i in artists && artists[i] == name
  }

  function Renamed(artists: map<nat, string>, from: string, to: string): map<nat, string> {
    map i | i in artists :: if artists[i] == from then to else artists[i]
  }

  /** The artist of an artist-category antecedent takes the consequent's name,
      unless the consequent already has an artist. */
  function WithArtistRenamed(db: Db, a: string, c: string): Db
    requires a in db.tags
  {
    db.(artists :=
          if db.tags[a].category == ArtistCategory && HasArtist(db.artists, a) && !HasArtist(db.artists, c)
          then Renamed(db.artists, a, c)
          else db.artists)
  }

  /** The mirror image: the consequent's artist goes back to the antecedent's
      name. */
  function WithArtistRenameUndone(db: Db, a: string, c: string): Db
    requires c in db.tags
  {
    db.(artists :=
          if db.tags[c].category == ArtistCategory && HasArtist(db.artists, c) && !HasArtist(db.artists, a)
          then Renamed(db.artists, c, a)
          else db.artists)
  }

  /** When the rename happened and the consequent is an artist tag when the
      alias is undone, the undo gives every artist its old name back. */
  lemma RenameArtistRoundTrip(db: Db, a: string, c: string)
    requires a in db.tags && c in db.tags && a != c
    requires db.tags[a].category == ArtistCategory && HasArtist(db.artists, a) && !HasArtist(db.artists, c)
    requires db.tags[c].category == ArtistCategory
    ensures WithArtistRenameUndone(WithArtistRenamed(db, a, c), a, c).artists == db.artists
  {
    var r := Renamed(db.artists, a, c);
    var i :| i in db.artists && db.artists[i] == a;
    assert r[i] == c;
    assert !HasArtist(r, a);
    assert Renamed(r, c, a) == db.artists;
  }

  // ---------------------------------------------------------------------
  // Undo records

  /** The posts listed in the not yet applied undo records of alias `id`. */
  function UndoPostIds(undos: map<nat, Undo>, id: nat): set<nat> {
    set u, k | u in undos && undos[u].aliasId == id && !undos[u].applied && 0 <= k < |undos[u].postIds| ::
      undos[u].postIds[k]
  }

  /** A new unapplied record of alias `id` adds exactly its posts to the
      ones an undo of `id` gives back. */
  lemma UndoPostIdsAdded(undos: map<nat, Undo>, u: nat, id: nat, ids: seq<nat>)
    requires u !in undos
    ensures UndoPostIds(undos[u := Undo(id, ids, false)], id) == UndoPostIds(undos, id) + (set p | p in ids)
  {
    var m := undos[u := Undo(id, ids, false)];
    forall p ensures p in UndoPostIds(m, id) <==> p in UndoPostIds(undos, id) || p in ids {
      if p in UndoPostIds(m, id) {
        var v, k :| v in m && m[v].aliasId == id && !m[v].applied && 0 <= k < |m[v].postIds| && m[v].postIds[k] == p;
        if v != u {
          assert undos[v] == m[v];
        }
      }
      if p in ids {
        var k :| 0 <= k < |ids| && ids[k] == p;
        assert m[u].postIds[k] == p;
      }
      if p in UndoPostIds(undos, id) {
        var v, k :| v in undos && undos[v].aliasId == id && !undos[v].applied &&
                    0 <= k < |undos[v].postIds| && undos[v].postIds[k] == p;
        assert m[v] == undos[v];
      }
    }
  }

  /** `update_posts_undo`: the listed posts get the diff `-c a`, then both
      counts are recomputed. */
  function WithPostsUndone(db: Db, id: nat, a: string, c: string): Db {
    var ids := UndoPostIds(db.undos, id);
    var posts := map p | p in db.posts :: if p in ids then Retag(db.posts[p], c, a) else db.posts[p];
    WithPostCountsFixed(db.(posts := posts), a, c)
  }

  /** Only the posts in unapplied undo records of this alias are re-tagged,
      each with `-c a`; the post counts of `a` and `c` are then exact. */
  lemma PostsUndoneSpec(db: Db, id: nat, a: string, c: string)
    requires a in db.tags && c in db.tags
    ensures var db' := WithPostsUndone(db, id, a, c);
      db'.posts.Keys == db.posts.Keys &&
      (forall p :: p in db.posts ==>
         db'.posts[p] == (if p in UndoPostIds(db.undos, id) then Retag(db.posts[p], c, a) else db.posts[p])) &&
      db'.tags[a].postCount == PostCount(db'.posts, a) &&
      db'.tags[c].postCount == PostCount(db'.posts, c)
  {
  }

  /** `tag_rel_undos.update_all(applied: true)`. */
  function MarkApplied(undos: map<nat, Undo>, id: nat): (m: map<nat, Undo>)
    ensures m.Keys == undos.Keys
  {
    map u | u in undos :: if undos[u].aliasId == id then undos[u].(applied := true) else undos[u]
  }

  /** After marking, the alias has no unapplied undo record left, so a second
      undo re-tags nothing; other aliases' records are untouched. */
  lemma MarkAppliedSpec(undos: map<nat, Undo>, id: nat)
    ensures UndoPostIds(MarkApplied(undos, id), id) == {}
    ensures forall u :: u in undos && undos[u].aliasId != id ==> MarkApplied(undos, id)[u] == undos[u]
    ensures forall u :: u in undos && undos[u].aliasId == id ==>
              MarkApplied(undos, id)[u] == undos[u].(applied := true)
  {
  }

  predicate StrictlyIncreasing(r: seq<nat>) {
    forall i, j :: 0 <= i < j < |r| ==> r[i] < r[j]
  }

  /** Every non-empty finite set of naturals has a least element. */
  lemma {:induction false} MinimumExists(s: set<nat>)
    requires s != {}
    ensures exists m :: IsMinimum(m, s)
    decreases |s|
  {
    var y :| y in s;
    if s == {y} {
      assert IsMinimum(y, s);
    } else {
      MinimumExists(s - {y});
      var m' :| IsMinimum(m', s - {y});
      if y < m' {
        MinimumOfAdded(m', s - {y}, y);
        assert s - {y} + {y} == s;
      } else {
        MinimumKept(m', s - {y}, y);
        assert s - {y} + {y} == s;
      }
    }
  }

  predicate IsMinimum(m: nat, s: set<nat>) {
    m in s && forall x :: x in s ==> m <= x
  }

  lemma MinimumOfAdded(m: nat, s: set<nat>, y: nat)
    requires IsMinimum(m, s) && y < m
    ensures IsMinimum(y, s + {y})
  {
  }

  lemma MinimumKept(m: nat, s: set<nat>, y: nat)
    requires IsMinimum(m, s) && m <= y
    ensures IsMinimum(m, s + {y})
  {
  }

  lemma PrependIncreasing(m: nat, rest: seq<nat>)
    requires StrictlyIncreasing(rest)
    requires forall x :: x in rest ==> m < x
    ensures StrictlyIncreasing([m] + rest)
  {
    var r := [m] + rest;
    forall i, j | 0 <= i < j < |r| ensures r[i] < r[j] {
      assert r[j] == rest[j - 1];
      if i > 0 {
        assert r[i] == rest[i - 1];
      } else {
        assert rest[j - 1] in rest;
      }
    }
  }

  /** The ids of a set in increasing order. */
  ghost function SortedIds(s: set<nat>): (r: seq<nat>)
    ensures forall x :: x in r <==> x in s
    ensures StrictlyIncreasing(r)
    decreases |s|
  {
    if s == {} then []
    else
      MinimumExists(s);
      var m :| IsMinimum(m, s);
      var rest := SortedIds(s - {m});
      PrependIncreasing(m, rest);
      [m] + rest
  }

  /** One past the largest undo id, so never an existing one. */
  ghost function NextUndoId(undos: map<nat, Undo>): (n: nat)
    ensures n !in undos
    ensures undos == map[] ==> n == 0
    ensures undos != map[] ==> n - 1 in undos && forall x :: x in undos ==> x < n
  {
    if undos == map[] then 0
    else
      var m := MaxKey(undos.Keys);
      m + 1
  }

  ghost function MaxKey(s: set<nat>): (m: nat)
    requires s != {}
    ensures m in s && forall x :: x in s ==> x <= m
    decreases |s|
  {
    var y :| y in s;
    if s == {y} then y
    else
      var m' := MaxKey(s - {y});
      assert forall x :: x in s ==> x == y || x in s - {y};
      if y < m' then m' else y
  }

  /** `create_undo_information`: a new undo record listing, in id order, the
      posts tagged with the antecedent. */
  ghost function WithUndoCaptured(db: Db, id: nat, a: string): Db {
    var ids := SortedIds(TaggedWith(db.posts, a));
    db.(undos := db.undos[NextUndoId(db.undos) := Undo(id, ids, false)])
  }
}
