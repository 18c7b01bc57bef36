/**
 * The other requests on an alias: `approve!` queues it for processing and
 * records which posts to give back on undo, `reject!` deletes it, `undo!`
 * queues the undo job and `process_undo!` gives the antecedent back.
 */
module Requests {
  import opened Wrappers
  import opened Text
  import opened TagGraph
  import opened Database
  import opened Lifecycle
  import AliasQuery

  // ---------------------------------------------------------------------
  // `approve!`

  /** `approve!`: `update(status: "queued", approver_id: ...)` (no exception
      when invalid), then `create_undo_information`, then the processing job
      is queued, whether or not the save went through. */
  ghost function Approve(db: Db, id: nat, approver: nat, updateTopic: bool): Db
    requires id in db.aliases
  {
    var r := db.aliases[id];
    var d1 := SaveIfValid(db, id, r.(status := Queued, approver := Some(approver)));
    var d2 := WithUndoCaptured(d1, id, r.antecedent);
    d2.(log := d2.log + [ProcessJobQueued(id, updateTopic)])
  }

  /** The row becomes queued with its approver exactly when it validates, and
      is otherwise left as it was; a new undo record lists, in increasing
      order, exactly the posts carrying the antecedent, next to the old
      records; the job is queued; nothing else changes. */
  lemma ApproveSpec(db: Db, id: nat, approver: nat, updateTopic: bool)
    requires id in db.aliases
    ensures var r := db.aliases[id];
      var queued := r.(status := Queued, approver := Some(approver));
      var d := Approve(db, id, approver, updateTopic);
      d.aliases.Keys == db.aliases.Keys &&
      d.aliases[id] == (if AliasErrors(db.aliases, id, queued) == [] then queued else r) &&
      (forall j :: j in db.aliases && j != id ==> d.aliases[j] == db.aliases[j]) &&
      (exists u :: u !in db.undos && u in d.undos && d.undos - {u} == db.undos &&
         d.undos[u].aliasId == id && !d.undos[u].applied &&
         StrictlyIncreasing(d.undos[u].postIds) &&
         (forall p :: p in d.undos[u].postIds <==> p in db.posts && r.antecedent in db.posts[p])) &&
      d.log == db.log + [ProcessJobQueued(id, updateTopic)] &&
      d.(aliases := db.aliases, undos := db.undos, log := db.log) == db
  {
    ApproveSavesRow(db, id, approver, updateTopic);
    ApproveRecordsUndo(db, id, approver, updateTopic);
  }

  /** The alias rows, the log and the tables `approve!` leaves alone. */
  lemma ApproveSavesRow(db: Db, id: nat, approver: nat, updateTopic: bool)
    requires id in db.aliases
    ensures var r := db.aliases[id];
      var queued := r.(status := Queued, approver := Some(approver));
      var d := Approve(db, id, approver, updateTopic);
      d.aliases == (if AliasErrors(db.aliases, id, queued) == [] then db.aliases[id := queued] else db.aliases) &&
      d.log == db.log + [ProcessJobQueued(id, updateTopic)] &&
      d.(aliases := db.aliases, undos := db.undos, log := db.log) == db
  {
  }

  /** The undo record `approve!` adds, under a fresh id. */
  lemma ApproveRecordsUndo(db: Db, id: nat, approver: nat, updateTopic: bool)
    requires id in db.aliases
    ensures var d := Approve(db, id, approver, updateTopic);
      exists u :: u !in db.undos && u in d.undos && d.undos - {u} == db.undos &&
        d.undos[u].aliasId == id && !d.undos[u].applied &&
        StrictlyIncreasing(d.undos[u].postIds) &&
        (forall p :: p in d.undos[u].postIds <==> p in db.posts && db.aliases[id].antecedent in db.posts[p])
  {
    var u := NextUndoId(db.undos);
    var tagged := TaggedWith(db.posts, db.aliases[id].antecedent);
    var rec := Undo(id, SortedIds(tagged), false);
    ApproveUndos(db, id, approver, updateTopic);
    AddedThenRemoved(db.undos, u, rec);
    assert forall p :: p in rec.postIds <==> p in tagged;
  }

  /** The undo table after `approve!`: one record more, under the next id. */
  lemma ApproveUndos(db: Db, id: nat, approver: nat, updateTopic: bool)
    requires id in db.aliases
    ensures Approve(db, id, approver, updateTopic).undos ==
              db.undos[NextUndoId(db.undos) := Undo(id, SortedIds(TaggedWith(db.posts, db.aliases[id].antecedent)), false)]
  {
  }

  lemma AddedThenRemoved<K, V>(m: map<K, V>, k: K, v: V)
    requires k !in m
    ensures m[k := v] - {k} == m
  {
    assert (m[k := v] - {k}).Keys == m.Keys;
  }

  /** What `process_undo!` will give back: the posts of the alias's unapplied
      undo records grow by exactly the posts that carried the antecedent
      when the alias was approved. */
  lemma {:induction false} ApproveCapturesTagged(db: Db, id: nat, approver: nat, updateTopic: bool)
    requires id in db.aliases
    ensures UndoPostIds(Approve(db, id, approver, updateTopic).undos, id) ==
              UndoPostIds(db.undos, id) + TaggedWith(db.posts, db.aliases[id].antecedent)
  {
    var a := db.aliases[id].antecedent;
    var u := NextUndoId(db.undos);
    var ids := SortedIds(TaggedWith(db.posts, a));
    assert Approve(db, id, approver, updateTopic).undos == db.undos[u := Undo(id, ids, false)];
    UndoPostIdsAdded(db.undos, u, id, ids);
    assert (set p | p in ids) == TaggedWith(db.posts, a);
  }

  /** The save only happens when validation passes, so antecedents stay
      unique. */
  lemma ApproveKeepsUnique(db: Db, id: nat, approver: nat, updateTopic: bool)
    requires id in db.aliases && UniqueAntecedents(db.aliases)
    ensures UniqueAntecedents(Approve(db, id, approver, updateTopic).aliases)
  {
    SaveIfValidKeepsUnique(db, id, db.aliases[id].(status := Queued, approver := Some(approver)));
  }

  // ---------------------------------------------------------------------
  // `reject!` and `undo!`

  /** `reject!`: `update(status: "deleted")`, then the forum update. */
  function Reject(db: Db, id: nat, updateTopic: bool): Db
    requires id in db.aliases
  {
    var d1 := SaveIfValid(db, id, db.aliases[id].(status := Deleted));
    WithForumUpdate(d1, id, Rejected, updateTopic)
  }

  /** A deleted row is only checked for self-reference, so the rejection is
      saved exactly when the alias does not point at itself; no other row
      changes. */
  lemma RejectSpec(db: Db, id: nat, updateTopic: bool)
    requires id in db.aliases
    ensures var r := db.aliases[id];
      var d := Reject(db, id, updateTopic);
      d.aliases.Keys == db.aliases.Keys &&
      (d.aliases[id].status == Deleted <==> r.antecedent != r.consequent || r.status == Deleted) &&
      (r.antecedent != r.consequent ==> d.aliases[id] == r.(status := Deleted)) &&
      (r.antecedent == r.consequent ==> d.aliases == db.aliases) &&
      (forall j :: j in db.aliases && j != id ==> d.aliases[j] == db.aliases[j])
  {
    var r := db.aliases[id];
    var deleted := r.(status := Deleted);
    var d := Reject(db, id, updateTopic);
    assert d.aliases == SaveIfValid(db, id, deleted).aliases;
    if r.antecedent == r.consequent {
      assert AliasErrors(db.aliases, id, deleted)[0] == SelfReference;
      assert d.aliases == db.aliases;
    } else {
      assert AliasErrors(db.aliases, id, deleted) == [] by {
        assert !(deleted.status != Deleted);
      }
      assert d.aliases == db.aliases[id := deleted];
    }
  }

  /** The forum hears of the rejection exactly when asked to, and nothing
      but the alias rows and the log changes. */
  lemma RejectReports(db: Db, id: nat, updateTopic: bool)
    requires id in db.aliases
    ensures var d := Reject(db, id, updateTopic);
      d.log == db.log + (if updateTopic then [ForumUpdate(id, Rejected)] else []) &&
      d.(aliases := db.aliases, log := db.log) == db
  {
  }

  /** A rejection leaves antecedents unique. */
  lemma RejectKeepsUnique(db: Db, id: nat, updateTopic: bool)
    requires id in db.aliases && UniqueAntecedents(db.aliases)
    ensures UniqueAntecedents(Reject(db, id, updateTopic).aliases)
  {
    SaveIfValidKeepsUnique(db, id, db.aliases[id].(status := Deleted));
  }

  /** `undo!`: only queues the undo job, which always updates the topic. */
  function UndoRequest(db: Db, id: nat): (d: Db)
    ensures d.log == db.log + [UndoJobQueued(id)]
    ensures d.(log := db.log) == db
  {
    db.(log := db.log + [UndoJobQueued(id)])
  }

  // ---------------------------------------------------------------------
  // `process_undo!`

  /** `update_posts_locked_tags_undo` and `update_blacklists_undo`: texts
      mentioning `c` are rewritten against the active aliases with the
      override `c -> a`. */
  function WithQueriesRestored(db: Db, a: string, c: string, cats: seq<string>): Db
    requires UniqueAntecedents(db.aliases)
  {
    var table := ActiveTable(db.aliases);
    db.(lockedTags := FixedQueries(db.lockedTags, c, cats, table, map[c := a]),
        blacklists := FixedQueries(db.blacklists, c, cats, table, map[c := a]))
  }

  /** The active table only holds consequents of rows, so when every row's
      consequent is a single tag name, so is every value of the table. */
  lemma ActiveTableTagNames(aliases: map<nat, Relation>)
    requires UniqueAntecedents(aliases)
    requires TagNameConsequents(aliases)
    ensures forall n :: n in ActiveTable(aliases) ==> AliasQuery.IsTagName(ActiveTable(aliases)[n])
  {
    ActiveTableSpec(aliases);
  }

  /** Setting the row pending keeps every consequent, so the table active
      afterwards still maps to single tag names. */
  lemma PendingTableTagNames(db: Db, id: nat)
    requires id in db.aliases && UniqueAntecedents(db.aliases)
    requires TagNameConsequents(db.aliases)
    ensures var d1 := SaveIfValid(db, id, db.aliases[id].(status := Pending));
      UniqueAntecedents(d1.aliases) &&
      forall n :: n in ActiveTable(d1.aliases) ==> AliasQuery.IsTagName(ActiveTable(d1.aliases)[n])
  {
    var d1 := SaveIfValid(db, id, db.aliases[id].(status := Pending));
    SaveIfValidKeepsUnique(db, id, db.aliases[id].(status := Pending));
    assert TagNameConsequents(d1.aliases);
    ActiveTableTagNames(d1.aliases);
  }

  /** `process_undo!`: raises the `"; "`-joined messages when the row is
      invalid; otherwise sets it pending (a save that may silently fail),
      rewrites locked tags and blacklists that mention the consequent with
      the override `c -> a`, gives the antecedent back to the posts of the
      unapplied undo records, renames the artist back, updates the forum and
      marks the undo records applied. */
  function ProcessUndo(db: Db, id: nat, cats: seq<string>, updateTopic: bool): Outcome
    requires HasEndpoints(db, id) && UniqueAntecedents(db.aliases)
  {
    var r := db.aliases[id];
    var errs := AliasErrors(db.aliases, id, r);
    if errs != [] then Raised(db, Messages(errs, r, "; "))
    else
      var a := r.antecedent;
      var c := r.consequent;
      var d1 := SaveIfValid(db, id, r.(status := Pending));
      SaveIfValidKeepsUnique(db, id, r.(status := Pending));
      var d2 := WithQueriesRestored(d1, a, c, cats);
      var d3 := WithPostsUndone(d2, id, a, c);
      var d4 := WithArtistRenameUndone(d3, a, c);
      var d5 := WithForumUpdate(d4, id, Undone, updateTopic);
      Completed(d5.(undos := MarkApplied(d5.undos, id)))
  }

  /** `process_undo!` raises exactly when the row is invalid, with the
      row's messages, and then nothing has been written. */
  lemma ProcessUndoRaises(db: Db, id: nat, cats: seq<string>, updateTopic: bool)
    requires HasEndpoints(db, id) && UniqueAntecedents(db.aliases)
    ensures var r := db.aliases[id];
      var errs := AliasErrors(db.aliases, id, r);
      var o := ProcessUndo(db, id, cats, updateTopic);
      (o.Raised? <==> errs != []) &&
      (o.Raised? ==> o.db == db && o.message == Messages(errs, r, "; ") && o.message != "")
  {
    var r := db.aliases[id];
    var errs := AliasErrors(db.aliases, id, r);
    if errs != [] {
      assert ErrorMessage(errs[0], r) != "";
    }
  }

  /** After an undo that went through, the row is pending exactly when the
      pending row validates (always, unless it had been deleted) and is
      otherwise left as it was; no other row changes and antecedents stay
      unique. */
  lemma ProcessUndoStatus(db: Db, id: nat, cats: seq<string>, updateTopic: bool)
    requires HasEndpoints(db, id) && UniqueAntecedents(db.aliases)
    ensures var r := db.aliases[id];
      var pending := r.(status := Pending);
      var o := ProcessUndo(db, id, cats, updateTopic);
      o.Completed? ==>
        HasEndpoints(o.db, id) && UniqueAntecedents(o.db.aliases) &&
        o.db.aliases.Keys == db.aliases.Keys &&
        o.db.aliases[id] == (if AliasErrors(db.aliases, id, pending) == [] then pending else r) &&
        (r.status != Deleted ==> o.db.aliases[id] == pending) &&
        (forall j :: j in db.aliases && j != id ==> o.db.aliases[j] == db.aliases[j])
  {
    var r := db.aliases[id];
    var pending := r.(status := Pending);
    if AliasErrors(db.aliases, id, r) == [] {
      ProcessUndoAliases(db, id, cats, updateTopic);
      if r.status != Deleted {
        assert AliasErrors(db.aliases, id, pending) == AliasErrors(db.aliases, id, r);
      }
    }
  }

  /** After a completed undo the alias table is the one the pending save
      left, and no tag has been added or removed. */
  lemma ProcessUndoAliases(db: Db, id: nat, cats: seq<string>, updateTopic: bool)
    requires HasEndpoints(db, id) && UniqueAntecedents(db.aliases)
    requires AliasErrors(db.aliases, id, db.aliases[id]) == []
    ensures var d1 := SaveIfValid(db, id, db.aliases[id].(status := Pending));
      var o := ProcessUndo(db, id, cats, updateTopic);
      UniqueAntecedents(d1.aliases) &&
      o.Completed? && o.db.aliases == d1.aliases && o.db.tags.Keys == db.tags.Keys
  {
    var r := db.aliases[id];
    var d1 := SaveIfValid(db, id, r.(status := Pending));
    SaveIfValidKeepsUnique(db, id, r.(status := Pending));
    var d2 := WithQueriesRestored(d1, r.antecedent, r.consequent, cats);
    var d3 := WithPostsUndone(d2, id, r.antecedent, r.consequent);
    assert d3.aliases == d1.aliases && d3.tags.Keys == db.tags.Keys;
  }

  /** A completed undo leaves the locked tags and blacklists as rewriting
      them with the override `c -> a`, against the aliases active once the
      row is pending, made them. */
  lemma ProcessUndoQueries(db: Db, id: nat, cats: seq<string>, updateTopic: bool)
    requires HasEndpoints(db, id) && UniqueAntecedents(db.aliases)
    requires AliasErrors(db.aliases, id, db.aliases[id]) == []
    ensures var r := db.aliases[id];
      var d1 := SaveIfValid(db, id, r.(status := Pending));
      UniqueAntecedents(d1.aliases) &&
      var restored := WithQueriesRestored(d1, r.antecedent, r.consequent, cats);
      var o := ProcessUndo(db, id, cats, updateTopic);
      o.Completed? && o.db.lockedTags == restored.lockedTags && o.db.blacklists == restored.blacklists
  {
    var r := db.aliases[id];
    SaveIfValidKeepsUnique(db, id, r.(status := Pending));
    var d2 := WithQueriesRestored(SaveIfValid(db, id, r.(status := Pending)), r.antecedent, r.consequent, cats);
    var d3 := WithPostsUndone(d2, id, r.antecedent, r.consequent);
    assert d3.lockedTags == d2.lockedTags && d3.blacklists == d2.blacklists;
  }

  /** Only the posts of the alias's unapplied undo records are re-tagged,
      each with `-c a`, and both post counts are exact afterwards; the undo
      records are then all applied, so a second undo re-tags nothing, and
      other aliases' records are untouched. */
  lemma ProcessUndoPosts(db: Db, id: nat, cats: seq<string>, updateTopic: bool)
    requires HasEndpoints(db, id) && UniqueAntecedents(db.aliases)
    ensures var a := db.aliases[id].antecedent;
      var c := db.aliases[id].consequent;
      var o := ProcessUndo(db, id, cats, updateTopic);
      o.Completed? ==>
        o.db.posts.Keys == db.posts.Keys &&
        (forall p :: p in db.posts ==>
           o.db.posts[p] == (if p in UndoPostIds(db.undos, id) then Retag(db.posts[p], c, a) else db.posts[p])) &&
        a in o.db.tags && c in o.db.tags &&
        o.db.tags[a].postCount == PostCount(o.db.posts, a) &&
        o.db.tags[c].postCount == PostCount(o.db.posts, c) &&
        o.db.undos.Keys == db.undos.Keys &&
        UndoPostIds(o.db.undos, id) == {} &&
        (forall u :: u in db.undos && db.undos[u].aliasId != id ==> o.db.undos[u] == db.undos[u])
  {
    var r := db.aliases[id];
    if AliasErrors(db.aliases, id, r) == [] {
      var a := r.antecedent;
      var c := r.consequent;
      var o := ProcessUndo(db, id, cats, updateTopic);
      var d1 := SaveIfValid(db, id, r.(status := Pending));
      SaveIfValidKeepsUnique(db, id, r.(status := Pending));
      var d2 := WithQueriesRestored(d1, a, c, cats);
      var d3 := WithPostsUndone(d2, id, a, c);
      PostsUndoneSpec(d2, id, a, c);
      assert o.db.posts == d3.posts && o.db.tags == d3.tags;
      assert o.db.undos == MarkApplied(db.undos, id);
      MarkAppliedSpec(db.undos, id);
    }
  }

  /** Locked tags that mention the consequent are rewritten with the
      override `c -> a` against the aliases active once the row is pending:
      every token naming `c` comes back as `a`, with its `-` kept; the other
      posts' locked tags are left as they were. */
  lemma ProcessUndoLockedTags(db: Db, id: nat, cats: seq<string>, updateTopic: bool)
    requires HasEndpoints(db, id) && UniqueAntecedents(db.aliases)
    requires AliasQuery.IsTagName(db.aliases[id].antecedent)
    requires TagNameConsequents(db.aliases)
    ensures var a := db.aliases[id].antecedent;
      var c := db.aliases[id].consequent;
      var o := ProcessUndo(db, id, cats, updateTopic);
      o.Completed? ==>
        o.db.lockedTags.Keys == db.lockedTags.Keys &&
        (forall k :: k in db.lockedTags && !ContainsIgnoringCase(db.lockedTags[k], c) ==>
           o.db.lockedTags[k] == db.lockedTags[k]) &&
        (forall k :: k in db.lockedTags && ContainsIgnoringCase(db.lockedTags[k], c) ==>
           NamesRestored(db.lockedTags[k], o.db.lockedTags[k], a, c, cats))
  {
    var r := db.aliases[id];
    if AliasErrors(db.aliases, id, r) == [] {
      var a := r.antecedent;
      var c := r.consequent;
      var d1 := SaveIfValid(db, id, r.(status := Pending));
      SaveIfValidKeepsUnique(db, id, r.(status := Pending));
      var table := ActiveTable(d1.aliases);
      ProcessUndoQueries(db, id, cats, updateTopic);
      PendingTableTagNames(db, id);
      FixedQueriesRestoreAntecedent(db.lockedTags, a, c, cats, table);
    }
  }

  /** Blacklists are restored the same way. */
  lemma ProcessUndoBlacklists(db: Db, id: nat, cats: seq<string>, updateTopic: bool)
    requires HasEndpoints(db, id) && UniqueAntecedents(db.aliases)
    requires AliasQuery.IsTagName(db.aliases[id].antecedent)
    requires TagNameConsequents(db.aliases)
    ensures var a := db.aliases[id].antecedent;
      var c := db.aliases[id].consequent;
      var o := ProcessUndo(db, id, cats, updateTopic);
      o.Completed? ==>
        o.db.blacklists.Keys == db.blacklists.Keys &&
        (forall k :: k in db.blacklists && !ContainsIgnoringCase(db.blacklists[k], c) ==>
           o.db.blacklists[k] == db.blacklists[k]) &&
        (forall k :: k in db.blacklists && ContainsIgnoringCase(db.blacklists[k], c) ==>
           NamesRestored(db.blacklists[k], o.db.blacklists[k], a, c, cats))
  {
    var r := db.aliases[id];
    if AliasErrors(db.aliases, id, r) == [] {
      var a := r.antecedent;
      var c := r.consequent;
      var d1 := SaveIfValid(db, id, r.(status := Pending));
      SaveIfValidKeepsUnique(db, id, r.(status := Pending));
      var table := ActiveTable(d1.aliases);
      ProcessUndoQueries(db, id, cats, updateTopic);
      PendingTableTagNames(db, id);
      FixedQueriesRestoreAntecedent(db.blacklists, a, c, cats, table);
    }
  }

  /** The forum hears of the undo exactly when asked to; the implications,
      tags' other fields, followers and everything else the undo does not
      name are left alone. */
  lemma ProcessUndoReports(db: Db, id: nat, cats: seq<string>, updateTopic: bool)
    requires HasEndpoints(db, id) && UniqueAntecedents(db.aliases)
    ensures var o := ProcessUndo(db, id, cats, updateTopic);
      o.Completed? ==>
        o.db.log == db.log + (if updateTopic then [ForumUpdate(id, Undone)] else []) &&
        o.db.implications == db.implications && o.db.followers == db.followers &&
        o.db.tags.Keys == db.tags.Keys
  {
  }

  /** A second undo of the same alias gives back no post: the first marked
      every undo record applied. */
  lemma {:induction false} SecondUndoRetagsNothing(db: Db, id: nat, cats: seq<string>, updateTopic: bool)
    requires HasEndpoints(db, id) && UniqueAntecedents(db.aliases)
    ensures var o := ProcessUndo(db, id, cats, updateTopic);
      o.Completed? ==>
        HasEndpoints(o.db, id) && UniqueAntecedents(o.db.aliases) &&
        var o2 := ProcessUndo(o.db, id, cats, updateTopic);
        o2.Completed? ==> o2.db.posts == o.db.posts
  {
    var o := ProcessUndo(db, id, cats, updateTopic);
    if o.Completed? {
      ProcessUndoStatus(db, id, cats, updateTopic);
      ProcessUndoPosts(db, id, cats, updateTopic);
      ProcessUndoPosts(o.db, id, cats, updateTopic);
      var o2 := ProcessUndo(o.db, id, cats, updateTopic);
      if o2.Completed? {
        assert UndoPostIds(o.db.undos, id) == {};
        forall p | p in o.db.posts ensures o2.db.posts[p] == o.db.posts[p] {
          assert p !in UndoPostIds(o.db.undos, id);
        }
        assert o2.db.posts.Keys == o.db.posts.Keys;
      }
    }
  }

  /** Undo reverses processing post by post: when the posts were re-tagged
      `a -> c` and the undo records list every post that carried `a`, each
      such post that did not already carry `c` gets exactly its old tags
      back. */
  lemma {:induction false} UndoRestoresRetagged(orig: map<nat, set<string>>, db: Db, id: nat, cats: seq<string>,
                                                updateTopic: bool)
    requires HasEndpoints(db, id) && UniqueAntecedents(db.aliases)
    requires db.aliases[id].antecedent != db.aliases[id].consequent
    requires db.posts == RetaggedPosts(orig, db.aliases[id].antecedent, db.aliases[id].consequent)
    requires TaggedWith(orig, db.aliases[id].antecedent) <= UndoPostIds(db.undos, id)
    ensures var a := db.aliases[id].antecedent;
      var c := db.aliases[id].consequent;
      var o := ProcessUndo(db, id, cats, updateTopic);
      o.Completed? ==>
        forall p :: p in orig && a in orig[p] && c !in orig[p] ==> o.db.posts[p] == orig[p]
  {
    var a := db.aliases[id].antecedent;
    var c := db.aliases[id].consequent;
    var o := ProcessUndo(db, id, cats, updateTopic);
    if o.Completed? {
      ProcessUndoPosts(db, id, cats, updateTopic);
      forall p | p in orig && a in orig[p] && c !in orig[p] ensures o.db.posts[p] == orig[p] {
        assert p in TaggedWith(orig, a);
        assert db.posts[p] == Retag(orig[p], a, c);
        RetagRoundTrip(orig[p], a, c);
      }
    }
  }
}
