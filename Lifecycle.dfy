/**
 * The life of an alias request: `approve!` queues it, `process!` carries it
 * out step by step and retries when a step raises, `reject!` deletes it and
 * `process_undo!` reverses it from the undo records `approve!` captured.
 *
 * Anything outside the model that can raise (the database, the forum, the
 * search index) is represented by an injected fault: a message raised just
 * before a chosen step of a chosen attempt.
 */
module Lifecycle {
  import opened Wrappers
  import opened Text
  import opened TagGraph
  import opened Database
  import AliasQuery

  /** The tag category names `to_aliased_query` strips, the category-change
      cutoff, and whether the code runs in the test environment. */
  datatype Config = Config(categories: seq<string>, cutoff: int, testEnv: bool)

  /** The statements of one attempt of `process!`, in the order they run. */
  datatype Step =
    | MarkProcessing | MoveRelations | CategoryConsistency | LockedTags | Blacklists
    | RetagPosts | Followers | ArtistRename | ForumApproval | MarkActive | FixPostCounts

  /** An exception raised just before step `before`. */
  datatype Fault = Fault(before: Step, message: string)

  datatype Outcome = Completed(db: Db) | Raised(db: Db, message: string)

  predicate Interrupts(fault: Option<Fault>, s: Step) {
    fault.Some? && fault.value.before == s
  }

  /** The alias row `id` is `a -> c` and both tags exist. */
  predicate Ready(db: Db, id: nat, a: string, c: string) {
    id in db.aliases && db.aliases[id].antecedent == a && db.aliases[id].consequent == c &&
    a in db.tags && c in db.tags && UniqueAntecedents(db.aliases)
  }

  // ---------------------------------------------------------------------
  // The steps

  function WithMove(db: Db, a: string, c: string): Db {
    db.(aliases := MovedAliases(db.aliases, a, c), implications := MovedImplications(db.implications, a, c))
  }

  /** `update_posts_locked_tags`: rewritten against the active aliases. */
  function WithLockedTagsFixed(db: Db, a: string, cats: seq<string>): Db
    requires UniqueAntecedents(db.aliases)
  {
    db.(lockedTags := FixedQueries(db.lockedTags, a, cats, ActiveTable(db.aliases), map[]))
  }

  function WithBlacklistsFixed(db: Db, a: string, cats: seq<string>): Db
    requires UniqueAntecedents(db.aliases)
  {
    db.(blacklists := FixedQueries(db.blacklists, a, cats, ActiveTable(db.aliases), map[]))
  }

  function WithPostsRetagged(db: Db, a: string, c: string): Db {
    db.(posts := RetaggedPosts(db.posts, a, c))
  }

  /** `update(status: "active", post_count: consequent_tag.post_count)`. */
  function WithActivated(db: Db, id: nat, c: string): Db
    requires id in db.aliases && c in db.tags
  {
    SaveIfValid(db, id, db.aliases[id].(status := Active, postCount := db.tags[c].postCount))
  }

  /** The move keeps the alias `a -> c` itself, and keeps antecedents unique. */
  lemma MoveKeepsReady(db: Db, id: nat, a: string, c: string)
    requires Ready(db, id, a, c) && a != c
    ensures Ready(WithMove(db, a, c), id, a, c)
    ensures WithMove(db, a, c).aliases[id] == db.aliases[id]
    ensures AliasErrors(db.aliases, id, db.aliases[id]) == [] ==>
              AliasErrors(WithMove(db, a, c).aliases, id, db.aliases[id]) == []
  {
    MovedAliasesNarrower(db.aliases, a, c);
    UniqueUnderNarrower(MovedAliases(db.aliases, a, c), db.aliases);
    if AliasErrors(db.aliases, id, db.aliases[id]) == [] {
      ErrorsUnderNarrower(MovedAliases(db.aliases, a, c), db.aliases, id, db.aliases[id]);
    }
  }

  /** One attempt of `process!`'s body. `update!(status: "processing")`
      raises the validation message when the alias is invalid; otherwise the
      attempt runs to the end unless the fault interrupts it, and what the
      steps before the interruption wrote stays written. */
  function Attempt(db: Db, id: nat, a: string, c: string, fault: Option<Fault>, cfg: Config, updateTopic: bool): Outcome
    requires Ready(db, id, a, c)
  {
    if Interrupts(fault, MarkProcessing) then Raised(db, fault.value.message)
    else
      var r := db.aliases[id].(status := Processing);
      var errs := AliasErrors(db.aliases, id, r);
      if errs != [] then Raised(db, ValidationFailed(errs, r))
      else
        SaveKeepsUnique(db.aliases, id, r);
        SelfReferenceExactly(db.aliases, id, r);
        Proceed(db.(aliases := db.aliases[id := r]), id, a, c, fault, cfg, updateTopic)
  }

  /** The position of a step in an attempt. */
  function Rank(s: Step): (r: nat)
    ensures r <= 10
  {
    match s
    case MarkProcessing => 0
    case MoveRelations => 1
    case CategoryConsistency => 2
    case LockedTags => 3
    case Blacklists => 4
    case RetagPosts => 5
    case Followers => 6
    case ArtistRename => 7
    case ForumApproval => 8
    case MarkActive => 9
    case FixPostCounts => 10
  }

  /** The step that runs just before `s`. */
  function Prev(s: Step): (p: Step)
    ensures Rank(s) >= 1 ==> Rank(p) == Rank(s) - 1
  {
    match s
    case MarkProcessing => MarkProcessing
    case MoveRelations => MarkProcessing
    case CategoryConsistency => MoveRelations
    case LockedTags => CategoryConsistency
    case Blacklists => LockedTags
    case RetagPosts => Blacklists
    case Followers => RetagPosts
    case ArtistRename => Followers
    case ForumApproval => ArtistRename
    case MarkActive => ForumApproval
    case FixPostCounts => MarkActive
  }

  /** What statement `s` of an attempt writes. */
  function StepOf(d: Db, id: nat, a: string, c: string, s: Step, cfg: Config, updateTopic: bool): Db
    requires Ready(d, id, a, c)
  {
    match s
    case MarkProcessing => d
    case MoveRelations => WithMove(d, a, c)
    case CategoryConsistency => WithCategoryConsistency(d, a, c, cfg.cutoff)
    case LockedTags => WithLockedTagsFixed(d, a, cfg.categories)
    case Blacklists => WithBlacklistsFixed(d, a, cfg.categories)
    case RetagPosts => WithPostsRetagged(d, a, c)
    case Followers => WithFollowersMoved(d, a, c)
    case ArtistRename => WithArtistRenamed(d, a, c)
    case ForumApproval => WithForumUpdate(d, id, Approved, updateTopic)
    case MarkActive => WithActivated(d, id, c)
    case FixPostCounts => WithPostCountsFixed(d, a, c)
  }

  /** No statement loses the alias `a -> c` or a tag, and only the forum
      update writes to the log. */
  lemma StepKeepsReady(d: Db, id: nat, a: string, c: string, s: Step, cfg: Config, updateTopic: bool)
    requires Ready(d, id, a, c) && a != c
    ensures Ready(StepOf(d, id, a, c, s, cfg, updateTopic), id, a, c)
  {
    match s {
      case MoveRelations =>
        MoveKeepsReady(d, id, a, c);
      case MarkActive =>
        var r := d.aliases[id].(status := Active, postCount := d.tags[c].postCount);
        if AliasErrors(d.aliases, id, r) == [] {
          SaveKeepsUnique(d.aliases, id, r);
        }
      case _ =>
    }
  }

  /** Only the forum update writes to the log. */
  lemma StepLog(d: Db, id: nat, a: string, c: string, s: Step, cfg: Config, updateTopic: bool)
    requires Ready(d, id, a, c) && a != c
    ensures StepOf(d, id, a, c, s, cfg, updateTopic).log ==
              if Rank(s) == Rank(ForumApproval) && updateTopic then d.log + [ForumUpdate(id, Approved)] else d.log
  {
    match s {
      case MarkProcessing =>
      case MoveRelations =>
      case CategoryConsistency =>
      case LockedTags =>
      case Blacklists =>
      case RetagPosts =>
      case Followers =>
      case ArtistRename =>
      case ForumApproval =>
      case MarkActive =>
      case FixPostCounts =>
    }
  }

  /** What the statements after `update!(status: "processing")` have
      written by the time statement `s` is about to run. */
  function Before(d1: Db, id: nat, a: string, c: string, s: Step, cfg: Config, updateTopic: bool): (d: Db)
    requires Ready(d1, id, a, c) && a != c
    ensures Ready(d, id, a, c)
    decreases Rank(s)
  {
    if Rank(s) <= 1 then d1
    else
      var d := Before(d1, id, a, c, Prev(s), cfg, updateTopic);
      StepKeepsReady(d, id, a, c, Prev(s), cfg, updateTopic);
      StepOf(d, id, a, c, Prev(s), cfg, updateTopic)
  }

  /** The recount runs before no statement. */
  lemma PrevNotLast(s: Step)
    ensures Prev(s) != FixPostCounts
  {
  }

  /** The statement that runs just after `s`. */
  function Next(s: Step): (n: Step)
    ensures s != FixPostCounts ==> Rank(n) == Rank(s) + 1 && Prev(n) == s
  {
    match s
    case MarkProcessing => MoveRelations
    case MoveRelations => CategoryConsistency
    case CategoryConsistency => LockedTags
    case LockedTags => Blacklists
    case Blacklists => RetagPosts
    case RetagPosts => Followers
    case Followers => ArtistRename
    case ArtistRename => ForumApproval
    case ForumApproval => MarkActive
    case MarkActive => FixPostCounts
    case FixPostCounts => FixPostCounts
  }

  /** Running statement `s` where `Before` stands for it reaches what
      `Before` says of the next statement. */
  lemma BeforeNext(d1: Db, id: nat, a: string, c: string, s: Step, cfg: Config, updateTopic: bool)
    requires Ready(d1, id, a, c) && a != c && s != MarkProcessing && s != FixPostCounts
    ensures Before(d1, id, a, c, Next(s), cfg, updateTopic) ==
              StepOf(Before(d1, id, a, c, s, cfg, updateTopic), id, a, c, s, cfg, updateTopic)
  {
  }

  /** Only the forum update writes to the log. */
  lemma {:induction false} BeforeForumReport(d1: Db, id: nat, a: string, c: string, s: Step, cfg: Config,
                                             updateTopic: bool)
    requires Ready(d1, id, a, c) && a != c
    ensures Before(d1, id, a, c, s, cfg, updateTopic).log ==
      if Rank(s) > Rank(ForumApproval) && updateTopic then d1.log + [ForumUpdate(id, Approved)] else d1.log
    decreases Rank(s)
  {
    if Rank(s) > 1 {
      var d := Before(d1, id, a, c, Prev(s), cfg, updateTopic);
      BeforeForumReport(d1, id, a, c, Prev(s), cfg, updateTopic);
      StepLog(d, id, a, c, Prev(s), cfg, updateTopic);
      BeforeStep(d1, id, a, c, s, cfg, updateTopic);
    }
  }

  /** Only moving the relations writes the alias table before the alias is
      marked active. */
  lemma StepAliases(d: Db, id: nat, a: string, c: string, s: Step, cfg: Config, updateTopic: bool)
    requires Ready(d, id, a, c) && a != c && s != MarkActive
    ensures StepOf(d, id, a, c, s, cfg, updateTopic).aliases ==
              if Rank(s) == Rank(MoveRelations) then MovedAliases(d.aliases, a, c) else d.aliases
  {
    match s {
      case MoveRelations =>
      case CategoryConsistency =>
      case ForumApproval =>
      case _ =>
    }
  }

  /** Only retagging writes the post table. */
  lemma StepPosts(d: Db, id: nat, a: string, c: string, s: Step, cfg: Config, updateTopic: bool)
    requires Ready(d, id, a, c) && a != c
    ensures StepOf(d, id, a, c, s, cfg, updateTopic).posts ==
              if s.RetagPosts? then RetaggedPosts(d.posts, a, c) else d.posts
  {
    match s {
      case MarkProcessing =>
      case MoveRelations =>
      case CategoryConsistency =>
      case LockedTags =>
      case Blacklists =>
      case RetagPosts =>
      case Followers =>
      case ArtistRename =>
      case ForumApproval =>
      case MarkActive =>
      case FixPostCounts =>
    }
  }

  /** Only moving the followers writes the follower table. */
  lemma StepFollowers(d: Db, id: nat, a: string, c: string, s: Step, cfg: Config, updateTopic: bool)
    requires Ready(d, id, a, c) && a != c
    ensures StepOf(d, id, a, c, s, cfg, updateTopic).followers ==
              if s.Followers? then MovedFollowers(d.followers, a, c) else d.followers
  {
    match s {
      case MarkProcessing =>
      case MoveRelations =>
      case CategoryConsistency =>
      case LockedTags =>
      case Blacklists =>
      case RetagPosts =>
      case Followers =>
      case ArtistRename =>
      case ForumApproval =>
      case MarkActive =>
      case FixPostCounts =>
    }
  }

  /** Only the final recount changes the consequent's post count. */
  lemma StepPostCount(d: Db, id: nat, a: string, c: string, s: Step, cfg: Config, updateTopic: bool)
    requires Ready(d, id, a, c) && a != c && s != FixPostCounts
    ensures var d' := StepOf(d, id, a, c, s, cfg, updateTopic);
      c in d'.tags && d'.tags[c].postCount == d.tags[c].postCount
  {
    StepKeepsReady(d, id, a, c, s, cfg, updateTopic);
    match s {
      case MarkActive =>
      case CategoryConsistency =>
      case Followers =>
      case _ =>
    }
  }

  /** The alias table from moving the relations until the alias is marked
      active. */
  lemma {:induction false} BeforeAliases(d1: Db, id: nat, a: string, c: string, s: Step, cfg: Config,
                                         updateTopic: bool)
    requires Ready(d1, id, a, c) && a != c && Rank(s) <= Rank(MarkActive)
    ensures Before(d1, id, a, c, s, cfg, updateTopic).aliases ==
              if Rank(s) <= Rank(MoveRelations) then d1.aliases else MovedAliases(d1.aliases, a, c)
    decreases Rank(s)
  {
    if Rank(s) > 1 {
      BeforeAliases(d1, id, a, c, Prev(s), cfg, updateTopic);
      StepAliases(Before(d1, id, a, c, Prev(s), cfg, updateTopic), id, a, c, Prev(s), cfg, updateTopic);
    }
  }

  /** The post table before and after retagging. */
  lemma {:induction false} BeforePosts(d1: Db, id: nat, a: string, c: string, s: Step, cfg: Config,
                                       updateTopic: bool)
    requires Ready(d1, id, a, c) && a != c
    ensures Before(d1, id, a, c, s, cfg, updateTopic).posts ==
              if Rank(s) <= Rank(RetagPosts) then d1.posts else RetaggedPosts(d1.posts, a, c)
    decreases Rank(s)
  {
    if Rank(s) > 1 {
      var d := Before(d1, id, a, c, Prev(s), cfg, updateTopic);
      RankInjective(Prev(s), RetagPosts);
      BeforePosts(d1, id, a, c, Prev(s), cfg, updateTopic);
      StepPosts(d, id, a, c, Prev(s), cfg, updateTopic);
      assert Before(d1, id, a, c, s, cfg, updateTopic) == StepOf(d, id, a, c, Prev(s), cfg, updateTopic);
    }
  }

  /** The follower table before and after moving the followers. */
  lemma {:induction false} BeforeFollowers(d1: Db, id: nat, a: string, c: string, s: Step, cfg: Config,
                                           updateTopic: bool)
    requires Ready(d1, id, a, c) && a != c
    ensures Before(d1, id, a, c, s, cfg, updateTopic).followers ==
              if Rank(s) <= Rank(Followers) then d1.followers else MovedFollowers(d1.followers, a, c)
    decreases Rank(s)
  {
    if Rank(s) > 1 {
      var d := Before(d1, id, a, c, Prev(s), cfg, updateTopic);
      RankInjective(Prev(s), Followers);
      BeforeFollowers(d1, id, a, c, Prev(s), cfg, updateTopic);
      StepFollowers(d, id, a, c, Prev(s), cfg, updateTopic);
      assert Before(d1, id, a, c, s, cfg, updateTopic) == StepOf(d, id, a, c, Prev(s), cfg, updateTopic);
    }
  }

  /** Only rewriting the locked tags writes them. */
  lemma StepLockedTags(d: Db, id: nat, a: string, c: string, s: Step, cfg: Config, updateTopic: bool)
    requires Ready(d, id, a, c) && a != c
    ensures !s.LockedTags? ==> StepOf(d, id, a, c, s, cfg, updateTopic).lockedTags == d.lockedTags
  {
    match s {
      case MarkProcessing =>
      case MoveRelations =>
      case CategoryConsistency =>
      case LockedTags =>
      case Blacklists =>
      case RetagPosts =>
      case Followers =>
      case ArtistRename =>
      case ForumApproval =>
      case MarkActive =>
      case FixPostCounts =>
    }
  }

  /** Only rewriting the blacklists writes them. */
  lemma StepBlacklists(d: Db, id: nat, a: string, c: string, s: Step, cfg: Config, updateTopic: bool)
    requires Ready(d, id, a, c) && a != c
    ensures !s.Blacklists? ==> StepOf(d, id, a, c, s, cfg, updateTopic).blacklists == d.blacklists
  {
    match s {
      case MarkProcessing =>
      case MoveRelations =>
      case CategoryConsistency =>
      case LockedTags =>
      case Blacklists =>
      case RetagPosts =>
      case Followers =>
      case ArtistRename =>
      case ForumApproval =>
      case MarkActive =>
      case FixPostCounts =>
    }
  }

  /** Rewriting the locked tags or the blacklists runs `to_aliased_query`
      against the table of active aliases. */
  lemma StepRewrites(d: Db, id: nat, a: string, c: string, s: Step, cfg: Config, updateTopic: bool)
    requires Ready(d, id, a, c) && a != c
    ensures s.LockedTags? ==>
              StepOf(d, id, a, c, s, cfg, updateTopic).lockedTags ==
                FixedQueries(d.lockedTags, a, cfg.categories, ActiveTable(d.aliases), map[])
    ensures s.Blacklists? ==>
              StepOf(d, id, a, c, s, cfg, updateTopic).blacklists ==
                FixedQueries(d.blacklists, a, cfg.categories, ActiveTable(d.aliases), map[])
  {
  }

  /** The statements before the rewrites touch neither text table. */
  lemma {:induction false} QueriesUntouched(d1: Db, id: nat, a: string, c: string, s: Step, cfg: Config,
                                            updateTopic: bool)
    requires Ready(d1, id, a, c) && a != c && Rank(s) <= Rank(Blacklists)
    ensures Rank(s) <= Rank(LockedTags) ==> Before(d1, id, a, c, s, cfg, updateTopic).lockedTags == d1.lockedTags
    ensures Before(d1, id, a, c, s, cfg, updateTopic).blacklists == d1.blacklists
    decreases Rank(s)
  {
    if Rank(s) > 1 {
      var d := Before(d1, id, a, c, Prev(s), cfg, updateTopic);
      QueriesUntouched(d1, id, a, c, Prev(s), cfg, updateTopic);
      StepLockedTags(d, id, a, c, Prev(s), cfg, updateTopic);
      StepBlacklists(d, id, a, c, Prev(s), cfg, updateTopic);
      BeforeStep(d1, id, a, c, s, cfg, updateTopic);
    }
  }

  /** A statement after the first sees what the one before it wrote. */
  lemma BeforeStep(d1: Db, id: nat, a: string, c: string, s: Step, cfg: Config, updateTopic: bool)
    requires Ready(d1, id, a, c) && a != c && Rank(s) > 1
    ensures Before(d1, id, a, c, s, cfg, updateTopic) ==
              StepOf(Before(d1, id, a, c, Prev(s), cfg, updateTopic), id, a, c, Prev(s), cfg, updateTopic)
  {
  }

  /** The rewrite of the locked tags (the statement before `b`) reads them as
      they were after the processing save. */
  lemma LockedTagsAtRewrite(d1: Db, id: nat, a: string, c: string, b: Step, cfg: Config, updateTopic: bool)
    requires Ready(d1, id, a, c) && a != c && b.Blacklists?
    ensures Prev(b).LockedTags?
    ensures Before(d1, id, a, c, Prev(b), cfg, updateTopic).lockedTags == d1.lockedTags
  {
    assert Prev(b) == LockedTags && Rank(Prev(b)) == Rank(LockedTags);
    QueriesUntouched(d1, id, a, c, Prev(b), cfg, updateTopic);
  }

  /** The rewrite of the blacklists (the statement before `b`) reads them as
      they were after the processing save. */
  lemma BlacklistsAtRewrite(d1: Db, id: nat, a: string, c: string, b: Step, cfg: Config, updateTopic: bool)
    requires Ready(d1, id, a, c) && a != c && b.RetagPosts?
    ensures Prev(b).Blacklists?
    ensures Before(d1, id, a, c, Prev(b), cfg, updateTopic).blacklists == d1.blacklists
  {
    assert Prev(b) == Blacklists && Rank(Prev(b)) == Rank(Blacklists);
    QueriesUntouched(d1, id, a, c, Prev(b), cfg, updateTopic);
  }

  /** Both rewrites read the moved alias table. */
  lemma AliasesAtRewrite(d1: Db, id: nat, a: string, c: string, t: Step, cfg: Config, updateTopic: bool)
    requires Ready(d1, id, a, c) && a != c && (t.LockedTags? || t.Blacklists?)
    ensures Before(d1, id, a, c, t, cfg, updateTopic).aliases == MovedAliases(d1.aliases, a, c)
  {
    assert Rank(MoveRelations) < Rank(t) <= Rank(MarkActive);
    BeforeAliases(d1, id, a, c, t, cfg, updateTopic);
  }

  /** No statement after the rewrite of the locked tags (`b` is the one
      right after it) writes them again. */
  lemma {:induction false} LockedTagsKept(d1: Db, id: nat, a: string, c: string, s: Step, b: Step, cfg: Config,
                                          updateTopic: bool)
    requires Ready(d1, id, a, c) && a != c && b.Blacklists? && Rank(s) >= Rank(b)
    ensures Before(d1, id, a, c, s, cfg, updateTopic).lockedTags == Before(d1, id, a, c, b, cfg, updateTopic).lockedTags
    decreases Rank(s)
  {
    if Rank(s) > Rank(b) {
      assert Rank(Prev(s)) >= Rank(b);
      var d := Before(d1, id, a, c, Prev(s), cfg, updateTopic);
      LockedTagsKept(d1, id, a, c, Prev(s), b, cfg, updateTopic);
      StepLockedTags(d, id, a, c, Prev(s), cfg, updateTopic);
      BeforeStep(d1, id, a, c, s, cfg, updateTopic);
    } else {
      RankInjective(s, b);
    }
  }

  /** No statement after the rewrite of the blacklists (`b` is the one right
      after it) writes them again. */
  lemma {:induction false} BlacklistsKept(d1: Db, id: nat, a: string, c: string, s: Step, b: Step, cfg: Config,
                                          updateTopic: bool)
    requires Ready(d1, id, a, c) && a != c && b.RetagPosts? && Rank(s) >= Rank(b)
    ensures Before(d1, id, a, c, s, cfg, updateTopic).blacklists == Before(d1, id, a, c, b, cfg, updateTopic).blacklists
    decreases Rank(s)
  {
    if Rank(s) > Rank(b) {
      assert Rank(Prev(s)) >= Rank(b);
      var d := Before(d1, id, a, c, Prev(s), cfg, updateTopic);
      BlacklistsKept(d1, id, a, c, Prev(s), b, cfg, updateTopic);
      StepBlacklists(d, id, a, c, Prev(s), cfg, updateTopic);
      BeforeStep(d1, id, a, c, s, cfg, updateTopic);
    } else {
      RankInjective(s, b);
    }
  }

  /** No statement before the final recount changes the consequent's post
      count. */
  lemma {:induction false} BeforePostCount(d1: Db, id: nat, a: string, c: string, s: Step, cfg: Config,
                                           updateTopic: bool)
    requires Ready(d1, id, a, c) && a != c
    ensures Before(d1, id, a, c, s, cfg, updateTopic).tags[c].postCount == d1.tags[c].postCount
    decreases Rank(s)
  {
    if Rank(s) > 1 {
      BeforePostCount(d1, id, a, c, Prev(s), cfg, updateTopic);
      StepPostCount(Before(d1, id, a, c, Prev(s), cfg, updateTopic), id, a, c, Prev(s), cfg, updateTopic);
    }
  }

  /** The statements after `update!(status: "processing")`: all of them, or
      those before the step the fault interrupts. */
  function Proceed(d1: Db, id: nat, a: string, c: string, fault: Option<Fault>, cfg: Config, updateTopic: bool): Outcome
    requires Ready(d1, id, a, c) && a != c
  {
    if fault.Some? && fault.value.before != MarkProcessing
    then Raised(Before(d1, id, a, c, fault.value.before, cfg, updateTopic), fault.value.message)
    else Completed(WithPostCountsFixed(Before(d1, id, a, c, FixPostCounts, cfg, updateTopic), a, c))
  }

  /** The same statements run forward: what the statements from `s` on
      make of `d`, each run unless the fault interrupts the attempt just
      before it. */
  function Resume(d: Db, id: nat, a: string, c: string, s: Step, fault: Option<Fault>, cfg: Config,
                  updateTopic: bool): Outcome
    requires Ready(d, id, a, c) && a != c
    decreases 10 - Rank(s)
  {
    if Interrupts(fault, s) then Raised(d, fault.value.message)
    else if s == FixPostCounts then Completed(WithPostCountsFixed(d, a, c))
    else
      StepKeepsReady(d, id, a, c, s, cfg, updateTopic);
      Resume(StepOf(d, id, a, c, s, cfg, updateTopic), id, a, c, Next(s), fault, cfg, updateTopic)
  }

  /** One statement of `Resume`, run. */
  lemma ResumeStep(d: Db, id: nat, a: string, c: string, s: Step, fault: Option<Fault>, cfg: Config,
                   updateTopic: bool)
    requires Ready(d, id, a, c) && a != c && !Interrupts(fault, s) && s != FixPostCounts
    ensures Ready(StepOf(d, id, a, c, s, cfg, updateTopic), id, a, c)
    ensures Resume(d, id, a, c, s, fault, cfg, updateTopic) ==
              Resume(StepOf(d, id, a, c, s, cfg, updateTopic), id, a, c, Next(s), fault, cfg, updateTopic)
  {
    StepKeepsReady(d, id, a, c, s, cfg, updateTopic);
  }

  /** A fault just before `s` ends the attempt with `d` as it stands. */
  lemma ResumeInterrupted(d: Db, id: nat, a: string, c: string, s: Step, fault: Option<Fault>, cfg: Config,
                          updateTopic: bool)
    requires Ready(d, id, a, c) && a != c && Interrupts(fault, s)
    ensures Resume(d, id, a, c, s, fault, cfg, updateTopic) == Raised(d, fault.value.message)
  {
  }

  /** The post counts are fixed last. */
  lemma ResumeLast(d: Db, id: nat, a: string, c: string, fault: Option<Fault>, cfg: Config, updateTopic: bool)
    requires Ready(d, id, a, c) && a != c && !Interrupts(fault, FixPostCounts)
    ensures Resume(d, id, a, c, FixPostCounts, fault, cfg, updateTopic) == Completed(WithPostCountsFixed(d, a, c))
  {
  }

  /** No two statements share a rank. */
  lemma RankInjective(s: Step, t: Step)
    ensures Rank(s) == Rank(t) ==> s == t
  {
  }

  /** Running forward from any statement the fault has not yet reached
      ends as `Proceed` says. */
  lemma {:induction false} ResumeFrom(d1: Db, id: nat, a: string, c: string, s: Step, fault: Option<Fault>,
                                      cfg: Config, updateTopic: bool)
    requires Ready(d1, id, a, c) && a != c && s != MarkProcessing
    requires fault.Some? ==> fault.value.before == MarkProcessing || Rank(fault.value.before) >= Rank(s)
    ensures Resume(Before(d1, id, a, c, s, cfg, updateTopic), id, a, c, s, fault, cfg, updateTopic) ==
              Proceed(d1, id, a, c, fault, cfg, updateTopic)
    decreases 10 - Rank(s)
  {
    if fault.Some? {
      RankInjective(fault.value.before, s);
    }
    if Interrupts(fault, s) {
      ProceedInterrupted(d1, id, a, c, s, fault, cfg, updateTopic);
    } else if s == FixPostCounts {
      ProceedFinished(d1, id, a, c, fault, cfg, updateTopic);
    } else {
      ResumeAdvance(d1, id, a, c, s, fault, cfg, updateTopic);
      ResumeFrom(d1, id, a, c, Next(s), fault, cfg, updateTopic);
    }
  }

  /** Past statement `s`, the run goes on from the state before the next one. */
  lemma ResumeAdvance(d1: Db, id: nat, a: string, c: string, s: Step, fault: Option<Fault>, cfg: Config,
                      updateTopic: bool)
    requires Ready(d1, id, a, c) && a != c && s != MarkProcessing && s != FixPostCounts && !Interrupts(fault, s)
    ensures Resume(Before(d1, id, a, c, s, cfg, updateTopic), id, a, c, s, fault, cfg, updateTopic) ==
              Resume(Before(d1, id, a, c, Next(s), cfg, updateTopic), id, a, c, Next(s), fault, cfg, updateTopic)
  {
    BeforeNext(d1, id, a, c, s, cfg, updateTopic);
    ResumeStep(Before(d1, id, a, c, s, cfg, updateTopic), id, a, c, s, fault, cfg, updateTopic);
  }

  /** A fault just before `s` leaves the state before `s`, as `Proceed` says. */
  lemma ProceedInterrupted(d1: Db, id: nat, a: string, c: string, s: Step, fault: Option<Fault>, cfg: Config,
                           updateTopic: bool)
    requires Ready(d1, id, a, c) && a != c && s != MarkProcessing && Interrupts(fault, s)
    ensures Resume(Before(d1, id, a, c, s, cfg, updateTopic), id, a, c, s, fault, cfg, updateTopic) ==
              Proceed(d1, id, a, c, fault, cfg, updateTopic)
  {
    ResumeInterrupted(Before(d1, id, a, c, s, cfg, updateTopic), id, a, c, s, fault, cfg, updateTopic);
  }

  /** With no fault after the first statement, the run fixes the post counts
      last, as `Proceed` says. */
  lemma ProceedFinished(d1: Db, id: nat, a: string, c: string, fault: Option<Fault>, cfg: Config, updateTopic: bool)
    requires Ready(d1, id, a, c) && a != c && (fault.None? || fault.value.before == MarkProcessing)
    ensures Resume(Before(d1, id, a, c, FixPostCounts, cfg, updateTopic), id, a, c, FixPostCounts, fault, cfg, updateTopic) ==
              Proceed(d1, id, a, c, fault, cfg, updateTopic)
  {
    ResumeLast(Before(d1, id, a, c, FixPostCounts, cfg, updateTopic), id, a, c, fault, cfg, updateTopic);
  }

  /** `Proceed` and `Resume` from the first statement agree. */
  lemma ProceedResumes(d1: Db, id: nat, a: string, c: string, fault: Option<Fault>, cfg: Config, updateTopic: bool)
    requires Ready(d1, id, a, c) && a != c
    ensures Resume(d1, id, a, c, MoveRelations, fault, cfg, updateTopic) == Proceed(d1, id, a, c, fault, cfg, updateTopic)
  {
    ResumeFrom(d1, id, a, c, MoveRelations, fault, cfg, updateTopic);
  }

  /** The validation of an alias does not look at its own row when it does
      not start where it ends. */
  lemma ErrorsIgnoreOwnRow(aliases: map<nat, Relation>, id: nat, r: Relation)
    requires id in aliases && aliases[id].antecedent == r.antecedent && r.antecedent != r.consequent
    ensures AliasErrors(aliases[id := r], id, r) == AliasErrors(aliases, id, r)
  {
    var m := aliases[id := r];
    assert HasDuplicateAntecedent(m, id, r) == HasDuplicateAntecedent(aliases, id, r) by {
      if HasDuplicateAntecedent(aliases, id, r) {
        var o :| o in aliases && o != id && InDuplicateRelevantScope(aliases[o].status) &&
          aliases[o].antecedent == r.antecedent;
        assert o in m && m[o] == aliases[o];
      }
    }
    assert HasActiveAliasFrom(m, r.consequent) == HasActiveAliasFrom(aliases, r.consequent) by {
      if HasActiveAliasFrom(aliases, r.consequent) {
        var o :| o in aliases && InActiveScope(aliases[o].status) && aliases[o].antecedent == r.consequent;
        assert o != id && o in m && m[o] == aliases[o];
      }
    }
  }

  /** Whatever an attempt ends with, the alias `a -> c` is still there with
      both tags, and it appends at most the APPROVED forum update to the log. */
  lemma AttemptKeepsReady(db: Db, id: nat, a: string, c: string, fault: Option<Fault>, cfg: Config, updateTopic: bool)
    requires Ready(db, id, a, c)
    ensures var o := Attempt(db, id, a, c, fault, cfg, updateTopic);
      Ready(o.db, id, a, c) && (o.db.log == db.log || o.db.log == db.log + [ForumUpdate(id, Approved)])
  {
    if !Interrupts(fault, MarkProcessing) {
      var r := db.aliases[id].(status := Processing);
      if AliasErrors(db.aliases, id, r) == [] {
        SaveKeepsUnique(db.aliases, id, r);
        SelfReferenceExactly(db.aliases, id, r);
        ProceedKeepsReady(db.(aliases := db.aliases[id := r]), id, a, c, fault, cfg, updateTopic);
      }
    }
  }

  lemma ProceedKeepsReady(d1: Db, id: nat, a: string, c: string, fault: Option<Fault>, cfg: Config, updateTopic: bool)
    requires Ready(d1, id, a, c) && a != c
    ensures var o := Proceed(d1, id, a, c, fault, cfg, updateTopic);
      Ready(o.db, id, a, c) && (o.db.log == d1.log || o.db.log == d1.log + [ForumUpdate(id, Approved)])
  {
    var o := Proceed(d1, id, a, c, fault, cfg, updateTopic);
    if fault.Some? && fault.value.before != MarkProcessing {
      BeforeForumReport(d1, id, a, c, fault.value.before, cfg, updateTopic);
      assert o.db == Before(d1, id, a, c, fault.value.before, cfg, updateTopic);
    } else {
      BeforeForumReport(d1, id, a, c, FixPostCounts, cfg, updateTopic);
      var d := Before(d1, id, a, c, FixPostCounts, cfg, updateTopic);
      assert o.db == WithPostCountsFixed(d, a, c);
      assert o.db.aliases == d.aliases && o.db.tags.Keys == d.tags.Keys && o.db.log == d.log;
    }
  }

  /** `d` is what a completed attempt leaves of `d0`: the alias is active
      and carries the consequent's post count as it was in `d0`; no post and
      no follower is left on `a`, whose post count is zero; the consequent's
      post count is exact; and no locked tag or blacklist still names `a`. */
  predicate Merged(d0: Db, d: Db, id: nat, a: string, c: string) {
    RowsMerged(d0, d, id, a, c) && QueriesFreed(d0, d, a)
  }

  /** The rows of `Merged`: the alias, the posts, the followers and the two
      post counts. */
  predicate RowsMerged(d0: Db, d: Db, id: nat, a: string, c: string) {
    id in d0.aliases && c in d0.tags && id in d.aliases && a in d.tags && c in d.tags &&
    d.aliases[id] == d0.aliases[id].(status := Active, postCount := d0.tags[c].postCount) &&
    (forall p :: p in d.posts ==> a !in d.posts[p]) &&
    (forall f :: f in d.followers ==> d.followers[f] != a) &&
    d.tags[a].postCount == 0 &&
    d.tags[c].postCount == PostCount(d.posts, c)
  }

  /** The texts of `Merged`: when every alias ends at a tag name, no locked
      tag and no blacklist has a word naming `a` any more. */
  predicate QueriesFreed(d0: Db, d: Db, a: string) {
    TagNameConsequents(d0.aliases) ==> NoTokenNames(d.lockedTags, a) && NoTokenNames(d.blacklists, a)
  }

  /** A completed attempt merges `a` into `c`. */
  lemma AttemptCompleted(db: Db, id: nat, a: string, c: string, fault: Option<Fault>, cfg: Config, updateTopic: bool)
    requires Ready(db, id, a, c)
    ensures var o := Attempt(db, id, a, c, fault, cfg, updateTopic);
      o.Completed? ==> Ready(o.db, id, a, c) && Merged(db, o.db, id, a, c)
  {
    if !Interrupts(fault, MarkProcessing) {
      var r := db.aliases[id].(status := Processing);
      if AliasErrors(db.aliases, id, r) == [] {
        SaveKeepsUnique(db.aliases, id, r);
        SelfReferenceExactly(db.aliases, id, r);
        ErrorsIgnoreOwnRow(db.aliases, id, r);
        ProceedKeepsReady(db.(aliases := db.aliases[id := r]), id, a, c, fault, cfg, updateTopic);
        ProceedCompleted(db.(aliases := db.aliases[id := r]), id, a, c, fault, cfg, updateTopic);
      }
    }
  }

  lemma ProceedCompleted(d1: Db, id: nat, a: string, c: string, fault: Option<Fault>, cfg: Config, updateTopic: bool)
    requires Ready(d1, id, a, c) && a != c
    requires d1.aliases[id].status == Processing && AliasErrors(d1.aliases, id, d1.aliases[id]) == []
    ensures var o := Proceed(d1, id, a, c, fault, cfg, updateTopic);
      o.Completed? ==> Ready(o.db, id, a, c) && Merged(d1, o.db, id, a, c)
  {
    ProceedKeepsReady(d1, id, a, c, fault, cfg, updateTopic);
    FinishMerged(d1, id, a, c, cfg, updateTopic);
  }

  /** The recount after the last statement leaves the alias merged. */
  lemma FinishMerged(d1: Db, id: nat, a: string, c: string, cfg: Config, updateTopic: bool)
    requires Ready(d1, id, a, c) && a != c
    requires d1.aliases[id].status == Processing && AliasErrors(d1.aliases, id, d1.aliases[id]) == []
    ensures Merged(d1, WithPostCountsFixed(Before(d1, id, a, c, FixPostCounts, cfg, updateTopic), a, c), id, a, c)
  {
    FinishedAttempt(d1, id, a, c, FixPostCounts, cfg, updateTopic);
    FinishedQueries(d1, id, a, c, FixPostCounts, cfg, updateTopic);
    RecountKeepsQueries(d1, Before(d1, id, a, c, FixPostCounts, cfg, updateTopic), a, c);
  }

  /** The steps run to the end. */
  lemma FinishedAttempt(d1: Db, id: nat, a: string, c: string, s: Step, cfg: Config, updateTopic: bool)
    requires Ready(d1, id, a, c) && a != c && Rank(s) > Rank(MarkActive)
    requires d1.aliases[id].status == Processing && AliasErrors(d1.aliases, id, d1.aliases[id]) == []
    ensures RowsMerged(d1, WithPostCountsFixed(Before(d1, id, a, c, s, cfg, updateTopic), a, c), id, a, c)
  {
    assert Rank(s) > Rank(RetagPosts) && Rank(s) > Rank(Followers);
    FinishedPosts(d1, id, a, c, s, cfg, updateTopic);
    FinishedFollowers(d1, id, a, c, s, cfg, updateTopic);
    FinishedAlias(d1, id, a, c, s, cfg, updateTopic);
  }

  /** Marking the alias active is the statement ranked just before the
      recount. */
  lemma StepActivates(d: Db, id: nat, a: string, c: string, s: Step, cfg: Config, updateTopic: bool)
    requires Ready(d, id, a, c) && Rank(s) == Rank(MarkActive)
    ensures StepOf(d, id, a, c, s, cfg, updateTopic) == WithActivated(d, id, c)
  {
  }

  /** Saving a valid processing alias as active passes validation again. */
  lemma ActivatedSaved(d: Db, id: nat, c: string, r: Relation)
    requires id in d.aliases && d.aliases[id] == r && c in d.tags
    requires r.status == Processing && AliasErrors(d.aliases, id, r) == []
    ensures WithActivated(d, id, c).aliases[id] == r.(status := Active, postCount := d.tags[c].postCount)
  {
    var active := r.(status := Active, postCount := d.tags[c].postCount);
    assert AliasErrors(d.aliases, id, active) == AliasErrors(d.aliases, id, r);
  }

  /** The last steps save the alias as active with the consequent's post
      count, which no step before them changed. */
  lemma FinishedAlias(d1: Db, id: nat, a: string, c: string, s: Step, cfg: Config, updateTopic: bool)
    requires Ready(d1, id, a, c) && a != c && Rank(s) > Rank(MarkActive)
    requires d1.aliases[id].status == Processing && AliasErrors(d1.aliases, id, d1.aliases[id]) == []
    ensures var d := Before(d1, id, a, c, s, cfg, updateTopic);
      id in d.aliases && d.aliases[id] == d1.aliases[id].(status := Active, postCount := d1.tags[c].postCount)
  {
    assert s == FixPostCounts;
    MoveKeepsReady(d1, id, a, c);
    BeforeAliases(d1, id, a, c, MarkActive, cfg, updateTopic);
    BeforePostCount(d1, id, a, c, MarkActive, cfg, updateTopic);
    var d9 := Before(d1, id, a, c, MarkActive, cfg, updateTopic);
    var r := d1.aliases[id];
    assert d9.aliases[id] == r && AliasErrors(d9.aliases, id, r) == [];
    StepActivates(d9, id, a, c, MarkActive, cfg, updateTopic);
    ActivatedSaved(d9, id, c, r);
    assert Before(d1, id, a, c, s, cfg, updateTopic) == WithActivated(d9, id, c);
  }

  lemma FinishedPosts(d1: Db, id: nat, a: string, c: string, s: Step, cfg: Config, updateTopic: bool)
    requires Ready(d1, id, a, c) && a != c && Rank(s) > Rank(RetagPosts)
    ensures var d := Before(d1, id, a, c, s, cfg, updateTopic);
      forall p :: p in d.posts ==> a !in d.posts[p]
  {
    BeforePosts(d1, id, a, c, s, cfg, updateTopic);
    RetaggedPostsSpec(d1.posts, a, c);
  }

  lemma FinishedFollowers(d1: Db, id: nat, a: string, c: string, s: Step, cfg: Config, updateTopic: bool)
    requires Ready(d1, id, a, c) && a != c && Rank(s) > Rank(Followers)
    ensures var d := Before(d1, id, a, c, s, cfg, updateTopic);
      forall f :: f in d.followers ==> d.followers[f] != a
  {
    BeforeFollowers(d1, id, a, c, s, cfg, updateTopic);
    FollowersMovedSpec(d1, a, c);
  }

  /** After the move, the table the texts are rewritten against sends `a` to
      `c`, and sends every antecedent to a tag name other than `a`: the
      processing save passed validation, so no active alias starts at `c`. */
  lemma MovedTableAvoids(d1: Db, id: nat, a: string, c: string)
    requires Ready(d1, id, a, c) && a != c && TagNameConsequents(d1.aliases)
    requires d1.aliases[id].status == Processing && AliasErrors(d1.aliases, id, d1.aliases[id]) == []
    ensures var m := MovedAliases(d1.aliases, a, c);
      UniqueAntecedents(m) && a in ActiveTable(m) &&
      forall n :: n in ActiveTable(m) ==> AliasQuery.IsTagName(ActiveTable(m)[n]) && ActiveTable(m)[n] != a
  {
    var m := MovedAliases(d1.aliases, a, c);
    MoveKeepsReady(d1, id, a, c);
    assert !HasActiveAliasFrom(d1.aliases, c);
    MovedLeavesNoneAt(d1.aliases, a, c);
    MovedTagNames(d1.aliases, a, c);
    ActiveTableAvoids(m, a);
    ActiveTableSpec(m);
  }


  /** Rewriting the locked tags of the processing save against the moved
      table leaves none that names `a`. */
  lemma LockedTagsRewriteFrees(d1: Db, d: Db, id: nat, a: string, c: string, s: Step, cfg: Config,
                               updateTopic: bool)
    requires Ready(d1, id, a, c) && a != c && TagNameConsequents(d1.aliases)
    requires d1.aliases[id].status == Processing && AliasErrors(d1.aliases, id, d1.aliases[id]) == []
    requires Ready(d, id, a, c) && s.LockedTags?
    requires d.lockedTags == d1.lockedTags && d.aliases == MovedAliases(d1.aliases, a, c)
    ensures NoTokenNames(StepOf(d, id, a, c, s, cfg, updateTopic).lockedTags, a)
  {
    MovedTableAvoids(d1, id, a, c);
    FixedQueriesFreeOf(d1.lockedTags, a, cfg.categories, ActiveTable(MovedAliases(d1.aliases, a, c)));
  }

  /** The same for the blacklists. */
  lemma BlacklistsRewriteFrees(d1: Db, d: Db, id: nat, a: string, c: string, s: Step, cfg: Config,
                               updateTopic: bool)
    requires Ready(d1, id, a, c) && a != c && TagNameConsequents(d1.aliases)
    requires d1.aliases[id].status == Processing && AliasErrors(d1.aliases, id, d1.aliases[id]) == []
    requires Ready(d, id, a, c) && s.Blacklists?
    requires d.blacklists == d1.blacklists && d.aliases == MovedAliases(d1.aliases, a, c)
    ensures NoTokenNames(StepOf(d, id, a, c, s, cfg, updateTopic).blacklists, a)
  {
    MovedTableAvoids(d1, id, a, c);
    FixedQueriesFreeOf(d1.blacklists, a, cfg.categories, ActiveTable(MovedAliases(d1.aliases, a, c)));
  }

  /** Right after their rewrite, no locked tag names `a`. */
  lemma LockedTagsFreed(d1: Db, id: nat, a: string, c: string, b: Step, cfg: Config, updateTopic: bool)
    requires Ready(d1, id, a, c) && a != c && TagNameConsequents(d1.aliases) && b.Blacklists?
    requires d1.aliases[id].status == Processing && AliasErrors(d1.aliases, id, d1.aliases[id]) == []
    ensures NoTokenNames(Before(d1, id, a, c, b, cfg, updateTopic).lockedTags, a)
  {
    LockedTagsAtRewrite(d1, id, a, c, b, cfg, updateTopic);
    AliasesAtRewrite(d1, id, a, c, Prev(b), cfg, updateTopic);
    BeforeStep(d1, id, a, c, b, cfg, updateTopic);
    LockedTagsRewriteFrees(d1, Before(d1, id, a, c, Prev(b), cfg, updateTopic), id, a, c, Prev(b), cfg, updateTopic);
  }

  /** Right after their rewrite, no blacklist names `a`. */
  lemma BlacklistsFreed(d1: Db, id: nat, a: string, c: string, b: Step, cfg: Config, updateTopic: bool)
    requires Ready(d1, id, a, c) && a != c && TagNameConsequents(d1.aliases) && b.RetagPosts?
    requires d1.aliases[id].status == Processing && AliasErrors(d1.aliases, id, d1.aliases[id]) == []
    ensures NoTokenNames(Before(d1, id, a, c, b, cfg, updateTopic).blacklists, a)
  {
    BlacklistsAtRewrite(d1, id, a, c, b, cfg, updateTopic);
    AliasesAtRewrite(d1, id, a, c, Prev(b), cfg, updateTopic);
    BeforeStep(d1, id, a, c, b, cfg, updateTopic);
    BlacklistsRewriteFrees(d1, Before(d1, id, a, c, Prev(b), cfg, updateTopic), id, a, c, Prev(b), cfg, updateTopic);
  }

  /** Once the locked tags are rewritten, none names `a` (when every alias
      ends at a tag name). */
  lemma FinishedLockedTags(d1: Db, id: nat, a: string, c: string, s: Step, cfg: Config, updateTopic: bool)
    requires Ready(d1, id, a, c) && a != c && Rank(s) > Rank(LockedTags)
    requires d1.aliases[id].status == Processing && AliasErrors(d1.aliases, id, d1.aliases[id]) == []
    ensures TagNameConsequents(d1.aliases) ==> NoTokenNames(Before(d1, id, a, c, s, cfg, updateTopic).lockedTags, a)
  {
    if TagNameConsequents(d1.aliases) {
      LockedTagsKept(d1, id, a, c, s, Blacklists, cfg, updateTopic);
      LockedTagsFreed(d1, id, a, c, Blacklists, cfg, updateTopic);
    }
  }

  /** Once the blacklists are rewritten, none names `a` (when every alias
      ends at a tag name). */
  lemma FinishedBlacklists(d1: Db, id: nat, a: string, c: string, s: Step, cfg: Config, updateTopic: bool)
    requires Ready(d1, id, a, c) && a != c && Rank(s) > Rank(Blacklists)
    requires d1.aliases[id].status == Processing && AliasErrors(d1.aliases, id, d1.aliases[id]) == []
    ensures TagNameConsequents(d1.aliases) ==> NoTokenNames(Before(d1, id, a, c, s, cfg, updateTopic).blacklists, a)
  {
    if TagNameConsequents(d1.aliases) {
      BlacklistsKept(d1, id, a, c, s, RetagPosts, cfg, updateTopic);
      BlacklistsFreed(d1, id, a, c, RetagPosts, cfg, updateTopic);
    }
  }

  /** The steps leave no locked tag and no blacklist naming `a`. */
  lemma FinishedQueries(d1: Db, id: nat, a: string, c: string, s: Step, cfg: Config, updateTopic: bool)
    requires Ready(d1, id, a, c) && a != c && Rank(s) > Rank(MarkActive)
    requires d1.aliases[id].status == Processing && AliasErrors(d1.aliases, id, d1.aliases[id]) == []
    ensures QueriesFreed(d1, Before(d1, id, a, c, s, cfg, updateTopic), a)
  {
    assert Rank(s) > Rank(Blacklists);
    FinishedLockedTags(d1, id, a, c, s, cfg, updateTopic);
    FinishedBlacklists(d1, id, a, c, s, cfg, updateTopic);
  }

  /** The recount writes post counts only. */
  lemma RecountKeepsQueries(d0: Db, d: Db, a: string, c: string)
    requires QueriesFreed(d0, d, a)
    ensures QueriesFreed(d0, WithPostCountsFixed(d, a, c), a)
  {
  }

  /** Without an injected fault, an attempt completes exactly when the alias
      passes validation as processing. */
  lemma AttemptWithoutFault(db: Db, id: nat, a: string, c: string, cfg: Config, updateTopic: bool)
    requires Ready(db, id, a, c)
    ensures Attempt(db, id, a, c, None, cfg, updateTopic).Completed? <==>
              AliasErrors(db.aliases, id, db.aliases[id].(status := Processing)) == []
  {
  }

  /** An attempt that fails validation changes nothing. */
  lemma AttemptRefused(db: Db, id: nat, a: string, c: string, fault: Option<Fault>, cfg: Config, updateTopic: bool)
    requires Ready(db, id, a, c)
    requires !Interrupts(fault, MarkProcessing)
    requires AliasErrors(db.aliases, id, db.aliases[id].(status := Processing)) != []
    ensures Attempt(db, id, a, c, fault, cfg, updateTopic) ==
              Raised(db, ValidationFailed(AliasErrors(db.aliases, id, db.aliases[id].(status := Processing)),
                                          db.aliases[id].(status := Processing)))
  {
  }

  /** What an interrupted attempt keeps of `d0` in `d`: the alias row's
      endpoints and approver, the consequent's post count, and consequents
      that are tag names. Only its status and post count may have changed. */
  predicate Carried(d0: Db, d: Db, id: nat, c: string) {
    id in d0.aliases && id in d.aliases && c in d0.tags && c in d.tags &&
    d.aliases[id].antecedent == d0.aliases[id].antecedent &&
    d.aliases[id].consequent == d0.aliases[id].consequent &&
    d.aliases[id].approver == d0.aliases[id].approver &&
    d.tags[c].postCount == d0.tags[c].postCount &&
    (TagNameConsequents(d0.aliases) ==> TagNameConsequents(d.aliases))
  }

  lemma CarriedTrans(d0: Db, d1: Db, d2: Db, id: nat, c: string)
    requires Carried(d0, d1, id, c) && Carried(d1, d2, id, c)
    ensures Carried(d0, d2, id, c)
  {
  }

  /** Every statement but the recount carries the state along. */
  lemma StepCarries(d: Db, id: nat, a: string, c: string, s: Step, cfg: Config, updateTopic: bool)
    requires Ready(d, id, a, c) && a != c && s != FixPostCounts
    ensures Carried(d, StepOf(d, id, a, c, s, cfg, updateTopic), id, c)
  {
    StepPostCount(d, id, a, c, s, cfg, updateTopic);
    var d' := StepOf(d, id, a, c, s, cfg, updateTopic);
    if s == MarkActive {
      var r := d.aliases[id].(status := Active, postCount := d.tags[c].postCount);
      if AliasErrors(d.aliases, id, r) == [] && TagNameConsequents(d.aliases) {
        SavedTagNames(d.aliases, id, r);
      }
    } else if s == MoveRelations {
      MoveKeepsReady(d, id, a, c);
      if TagNameConsequents(d.aliases) {
        MovedTagNames(d.aliases, a, c);
      }
    } else {
      StepAliases(d, id, a, c, s, cfg, updateTopic);
    }
  }

  /** The statements before `s` carry the state along. */
  lemma {:induction false} BeforeCarried(d1: Db, id: nat, a: string, c: string, s: Step, cfg: Config,
                                         updateTopic: bool)
    requires Ready(d1, id, a, c) && a != c
    ensures Carried(d1, Before(d1, id, a, c, s, cfg, updateTopic), id, c)
    decreases Rank(s)
  {
    if Rank(s) > 1 {
      var d := Before(d1, id, a, c, Prev(s), cfg, updateTopic);
      PrevNotLast(s);
      BeforeCarried(d1, id, a, c, Prev(s), cfg, updateTopic);
      StepCarries(d, id, a, c, Prev(s), cfg, updateTopic);
      CarriedTrans(d1, d, StepOf(d, id, a, c, Prev(s), cfg, updateTopic), id, c);
    }
  }

  /** An attempt that raises carries the state along. */
  lemma AttemptRaisedCarries(db: Db, id: nat, a: string, c: string, fault: Option<Fault>, cfg: Config,
                             updateTopic: bool)
    requires Ready(db, id, a, c)
    ensures var o := Attempt(db, id, a, c, fault, cfg, updateTopic);
      o.Raised? ==> Carried(db, o.db, id, c)
  {
    if !Interrupts(fault, MarkProcessing) {
      var r := db.aliases[id].(status := Processing);
      if AliasErrors(db.aliases, id, r) == [] {
        var d1 := db.(aliases := db.aliases[id := r]);
        SaveKeepsUnique(db.aliases, id, r);
        SelfReferenceExactly(db.aliases, id, r);
        if TagNameConsequents(db.aliases) {
          SavedTagNames(db.aliases, id, r);
        }
        assert Carried(db, d1, id, c);
        if fault.Some? && fault.value.before != MarkProcessing {
          BeforeCarried(d1, id, a, c, fault.value.before, cfg, updateTopic);
          CarriedTrans(db, d1, Before(d1, id, a, c, fault.value.before, cfg, updateTopic), id, c);
        }
      }
    }
  }

  /** A merge of a carried state is a merge of the state it was carried
      from. */
  lemma MergedCarried(d0: Db, dk: Db, d: Db, id: nat, a: string, c: string)
    requires Carried(d0, dk, id, c) && Merged(dk, d, id, a, c)
    ensures Merged(d0, d, id, a, c)
  {
  }

  /** An attempt on a state carried from `d0` either raises and carries it
      further, or completes and merges `a` into `c` as `d0` had them. */
  lemma AttemptCarried(d0: Db, db: Db, id: nat, a: string, c: string, fault: Option<Fault>, cfg: Config,
                       updateTopic: bool)
    requires Ready(db, id, a, c) && Carried(d0, db, id, c)
    ensures var o := Attempt(db, id, a, c, fault, cfg, updateTopic);
      (o.Raised? ==> Carried(d0, o.db, id, c)) && (o.Completed? ==> Merged(d0, o.db, id, a, c))
  {
    var o := Attempt(db, id, a, c, fault, cfg, updateTopic);
    if o.Completed? {
      AttemptCompleted(db, id, a, c, fault, cfg, updateTopic);
      MergedCarried(d0, db, o.db, id, a, c);
    } else {
      AttemptRaisedCarries(db, id, a, c, fault, cfg, updateTopic);
      CarriedTrans(d0, db, o.db, id, c);
    }
  }

  // ---------------------------------------------------------------------
  // `process!`: retries and the final failure

  const MaxRetries: nat := 5

  function Pow2(n: nat): nat {
    if n == 0 then 1 else 2 * Pow2(n - 1)
  }

  /** The fault injected into attempt `n` (counting from 0). */
  function FaultOf(faults: seq<Option<Fault>>, n: nat): Option<Fault> {
    if n < |faults| then faults[n] else None
  }

  /** The rescue's end: the FAILED forum update, then `update_columns`, which
      writes the status without validation. */
  function MarkFailed(db: Db, id: nat, message: string, updateTopic: bool): Db
    requires id in db.aliases
  {
    var d := WithForumUpdate(db, id, ForumAction.Failed, updateTopic);
    d.(aliases := d.aliases[id := d.aliases[id].(status := Error(message))])
  }

  /** `process!` from the `tries`-th attempt on. */
  function ProcessFrom(db: Db, id: nat, a: string, c: string, faults: seq<Option<Fault>>, tries: nat,
                       cfg: Config, updateTopic: bool): Db
    requires tries <= MaxRetries && Ready(db, id, a, c)
    decreases MaxRetries - tries, 1
  {
    AttemptKeepsReady(db, id, a, c, FaultOf(faults, tries), cfg, updateTopic);
    Rescue(Attempt(db, id, a, c, FaultOf(faults, tries), cfg, updateTopic), id, a, c, faults, tries, cfg, updateTopic)
  }

  /** One attempt of `ProcessFrom`, and what follows it. */
  lemma RetryStep(db: Db, id: nat, a: string, c: string, faults: seq<Option<Fault>>, tries: nat, cfg: Config,
                  updateTopic: bool)
    requires tries <= MaxRetries && Ready(db, id, a, c)
    ensures var o := Attempt(db, id, a, c, FaultOf(faults, tries), cfg, updateTopic);
      Ready(o.db, id, a, c) && ProcessFrom(db, id, a, c, faults, tries, cfg, updateTopic) ==
        Rescue(o, id, a, c, faults, tries, cfg, updateTopic)
  {
    AttemptKeepsReady(db, id, a, c, FaultOf(faults, tries), cfg, updateTopic);
  }

  /** A raised attempt is retried while retries are left outside the test
      environment, after the sleep. */
  lemma Retried(o: Outcome, id: nat, a: string, c: string, faults: seq<Option<Fault>>, tries: nat, cfg: Config,
                updateTopic: bool)
    requires tries < MaxRetries && !cfg.testEnv && o.Raised? && Ready(o.db, id, a, c)
    ensures Rescue(o, id, a, c, faults, tries, cfg, updateTopic) ==
              ProcessFrom(o.db.(log := o.db.log + [Slept(Pow2(tries + 1))]), id, a, c, faults, tries + 1, cfg, updateTopic)
  {
  }

  /** What follows the `tries`-th attempt: a raised attempt is retried after
      sleeping `2**tries` seconds (with `tries` already incremented) while
      fewer than five retries were made outside the test environment. */
  function Rescue(o: Outcome, id: nat, a: string, c: string, faults: seq<Option<Fault>>, tries: nat,
                  cfg: Config, updateTopic: bool): Db
    requires tries <= MaxRetries && Ready(o.db, id, a, c)
    decreases MaxRetries - tries, 0
  {
    if o.Completed? then o.db
    else if tries < MaxRetries && !cfg.testEnv then
      ProcessFrom(o.db.(log := o.db.log + [Slept(Pow2(tries + 1))]), id, a, c, faults, tries + 1, cfg, updateTopic)
    else MarkFailed(o.db, id, o.message, updateTopic)
  }

  function Process(db: Db, id: nat, a: string, c: string, faults: seq<Option<Fault>>,
                   cfg: Config, updateTopic: bool): Db
    requires Ready(db, id, a, c)
  {
    ProcessFrom(db, id, a, c, faults, 0, cfg, updateTopic)
  }

  /** The sleeps in a log, in order. */
  function Sleeps(log: seq<Event>): seq<nat>
    decreases |log|
  {
    if log == [] then []
    else Sleeps(log[..|log| - 1]) + (if log[|log| - 1].Slept? then [log[|log| - 1].seconds] else [])
  }

  /** The FAILED forum updates of alias `id` in a log. */
  function FailureReports(log: seq<Event>, id: nat): nat
    decreases |log|
  {
    if log == [] then 0
    else FailureReports(log[..|log| - 1], id) + (if log[|log| - 1] == ForumUpdate(id, ForumAction.Failed) then 1 else 0)
  }

  lemma LogSnoc(log: seq<Event>, e: Event, id: nat)
    ensures Sleeps(log + [e]) == Sleeps(log) + (if e.Slept? then [e.seconds] else [])
    ensures FailureReports(log + [e], id) == FailureReports(log, id) + (if e == ForumUpdate(id, ForumAction.Failed) then 1 else 0)
  {
    assert (log + [e])[..|log|] == log;
  }

  /** The delays of `k` retries after attempt `from`: doubling from
      `2**(from + 1)`. */
  function Delays(from: nat, k: nat): (r: seq<nat>)
    ensures |r| == k
    ensures forall i :: 0 <= i < k ==> r[i] == Pow2(from + i + 1)
    decreases k
  {
    if k == 0 then [] else [Pow2(from + 1)] + Delays(from + 1, k - 1)
  }

  /** One more sleep in front of the delays after it. */
  lemma DelaysStep(before: seq<nat>, tries: nat, k: nat)
    ensures (before + [Pow2(tries + 1)]) + Delays(tries + 1, k) == before + Delays(tries, k + 1)
  {
    assert Delays(tries, k + 1) == [Pow2(tries + 1)] + Delays(tries + 1, k);
  }

  /** `process!` sleeps 2, 4, 8, ... seconds, at most five times, and never in
      the test environment. */
  lemma {:induction false} ProcessSleepsFrom(db: Db, id: nat, a: string, c: string, faults: seq<Option<Fault>>,
                                             tries: nat, cfg: Config, updateTopic: bool)
    requires tries <= MaxRetries && Ready(db, id, a, c)
    ensures exists k :: 0 <= k <= MaxRetries - tries && (cfg.testEnv ==> k == 0) &&
              Sleeps(ProcessFrom(db, id, a, c, faults, tries, cfg, updateTopic).log) == Sleeps(db.log) + Delays(tries, k)
    decreases MaxRetries - tries, 1
  {
    var o := Attempt(db, id, a, c, FaultOf(faults, tries), cfg, updateTopic);
    AttemptKeepsReady(db, id, a, c, FaultOf(faults, tries), cfg, updateTopic);
    AttemptSleepsNot(db, id, a, c, FaultOf(faults, tries), cfg, updateTopic);
    RescueSleeps(o, id, a, c, faults, tries, cfg, updateTopic);
    var k :| 0 <= k <= MaxRetries - tries && (cfg.testEnv ==> k == 0) &&
      Sleeps(Rescue(o, id, a, c, faults, tries, cfg, updateTopic).log) == Sleeps(o.db.log) + Delays(tries, k);
    assert Sleeps(ProcessFrom(db, id, a, c, faults, tries, cfg, updateTopic).log) == Sleeps(db.log) + Delays(tries, k);
  }

  /** An attempt itself never sleeps. */
  lemma AttemptSleepsNot(db: Db, id: nat, a: string, c: string, fault: Option<Fault>, cfg: Config, updateTopic: bool)
    requires Ready(db, id, a, c)
    ensures Sleeps(Attempt(db, id, a, c, fault, cfg, updateTopic).db.log) == Sleeps(db.log)
    ensures FailureReports(Attempt(db, id, a, c, fault, cfg, updateTopic).db.log, id) == FailureReports(db.log, id)
  {
    AttemptKeepsReady(db, id, a, c, fault, cfg, updateTopic);
    LogSnoc(db.log, ForumUpdate(id, Approved), id);
  }

  lemma {:induction false} RescueSleeps(o: Outcome, id: nat, a: string, c: string, faults: seq<Option<Fault>>,
                                        tries: nat, cfg: Config, updateTopic: bool)
    requires tries <= MaxRetries && Ready(o.db, id, a, c)
    ensures exists k :: 0 <= k <= MaxRetries - tries && (cfg.testEnv ==> k == 0) &&
              Sleeps(Rescue(o, id, a, c, faults, tries, cfg, updateTopic).log) == Sleeps(o.db.log) + Delays(tries, k)
    decreases MaxRetries - tries, 0
  {
    if o.Completed? {
      assert Sleeps(o.db.log) + Delays(tries, 0) == Sleeps(o.db.log);
    } else if tries < MaxRetries && !cfg.testEnv {
      var d := o.db.(log := o.db.log + [Slept(Pow2(tries + 1))]);
      LogSnoc(o.db.log, Slept(Pow2(tries + 1)), id);
      ProcessSleepsFrom(d, id, a, c, faults, tries + 1, cfg, updateTopic);
      var k :| 0 <= k <= MaxRetries - (tries + 1) &&
        Sleeps(ProcessFrom(d, id, a, c, faults, tries + 1, cfg, updateTopic).log) == Sleeps(d.log) + Delays(tries + 1, k);
      DelaysStep(Sleeps(o.db.log), tries, k);
    } else {
      LogSnoc(o.db.log, ForumUpdate(id, ForumAction.Failed), id);
      assert Sleeps(o.db.log) + Delays(tries, 0) == Sleeps(o.db.log);
    }
  }

  lemma ProcessSleeps(db: Db, id: nat, a: string, c: string, faults: seq<Option<Fault>>,
                      cfg: Config, updateTopic: bool)
    requires Ready(db, id, a, c)
    ensures exists k :: 0 <= k <= MaxRetries && (cfg.testEnv ==> k == 0) &&
              Sleeps(Process(db, id, a, c, faults, cfg, updateTopic).log) == Sleeps(db.log) + Delays(0, k)
  {
    ProcessSleepsFrom(db, id, a, c, faults, 0, cfg, updateTopic);
  }

  /** `process!` ends with the alias active, or in an error status after
      exactly one FAILED forum update when the topic is updated. */
  lemma {:induction false} ProcessOutcomeFrom(db: Db, id: nat, a: string, c: string, faults: seq<Option<Fault>>,
                                              tries: nat, cfg: Config, updateTopic: bool)
    requires tries <= MaxRetries && Ready(db, id, a, c)
    ensures var d := ProcessFrom(db, id, a, c, faults, tries, cfg, updateTopic);
      id in d.aliases &&
      (d.aliases[id].status == Active || d.aliases[id].status.Error?) &&
      FailureReports(d.log, id) ==
        FailureReports(db.log, id) + (if d.aliases[id].status.Error? && updateTopic then 1 else 0)
    decreases MaxRetries - tries, 1
  {
    var o := Attempt(db, id, a, c, FaultOf(faults, tries), cfg, updateTopic);
    AttemptKeepsReady(db, id, a, c, FaultOf(faults, tries), cfg, updateTopic);
    AttemptCompleted(db, id, a, c, FaultOf(faults, tries), cfg, updateTopic);
    AttemptSleepsNot(db, id, a, c, FaultOf(faults, tries), cfg, updateTopic);
    RescueOutcome(o, id, a, c, faults, tries, cfg, updateTopic);
  }

  lemma {:induction false} RescueOutcome(o: Outcome, id: nat, a: string, c: string, faults: seq<Option<Fault>>,
                                         tries: nat, cfg: Config, updateTopic: bool)
    requires tries <= MaxRetries && Ready(o.db, id, a, c)
    requires o.Completed? ==> o.db.aliases[id].status == Active
    ensures var d := Rescue(o, id, a, c, faults, tries, cfg, updateTopic);
      id in d.aliases &&
      (d.aliases[id].status == Active || d.aliases[id].status.Error?) &&
      FailureReports(d.log, id) ==
        FailureReports(o.db.log, id) + (if d.aliases[id].status.Error? && updateTopic then 1 else 0)
    decreases MaxRetries - tries, 0
  {
    if o.Completed? {
    } else if tries < MaxRetries && !cfg.testEnv {
      var d := o.db.(log := o.db.log + [Slept(Pow2(tries + 1))]);
      LogSnoc(o.db.log, Slept(Pow2(tries + 1)), id);
      ProcessOutcomeFrom(d, id, a, c, faults, tries + 1, cfg, updateTopic);
    } else {
      LogSnoc(o.db.log, ForumUpdate(id, ForumAction.Failed), id);
    }
  }

  /** When `process!` from the `tries`-th attempt on leaves the alias
      active, the attempt that completed merged `a` into `c` as `db0`, the
      state the earlier attempts were carried from, had them. */
  lemma {:induction false} ProcessMergesFrom(db0: Db, db: Db, id: nat, a: string, c: string,
                                             faults: seq<Option<Fault>>, tries: nat, cfg: Config, updateTopic: bool)
    requires tries <= MaxRetries && Ready(db, id, a, c) && Carried(db0, db, id, c)
    ensures var d := ProcessFrom(db, id, a, c, faults, tries, cfg, updateTopic);
      id in d.aliases && d.aliases[id].status == Active ==> Merged(db0, d, id, a, c)
    decreases MaxRetries - tries, 1
  {
    var o := Attempt(db, id, a, c, FaultOf(faults, tries), cfg, updateTopic);
    AttemptKeepsReady(db, id, a, c, FaultOf(faults, tries), cfg, updateTopic);
    AttemptCarried(db0, db, id, a, c, FaultOf(faults, tries), cfg, updateTopic);
    RescueMerges(db0, o, id, a, c, faults, tries, cfg, updateTopic);
  }

  lemma {:induction false} RescueMerges(db0: Db, o: Outcome, id: nat, a: string, c: string,
                                        faults: seq<Option<Fault>>, tries: nat, cfg: Config, updateTopic: bool)
    requires tries <= MaxRetries && Ready(o.db, id, a, c)
    requires o.Raised? ==> Carried(db0, o.db, id, c)
    requires o.Completed? ==> Merged(db0, o.db, id, a, c)
    ensures var d := Rescue(o, id, a, c, faults, tries, cfg, updateTopic);
      id in d.aliases && d.aliases[id].status == Active ==> Merged(db0, d, id, a, c)
    decreases MaxRetries - tries, 0
  {
    if o.Raised? && tries < MaxRetries && !cfg.testEnv {
      var d := o.db.(log := o.db.log + [Slept(Pow2(tries + 1))]);
      assert Carried(db0, d, id, c);
      ProcessMergesFrom(db0, d, id, a, c, faults, tries + 1, cfg, updateTopic);
    }
  }

  lemma ProcessOutcome(db: Db, id: nat, a: string, c: string, faults: seq<Option<Fault>>,
                       cfg: Config, updateTopic: bool)
    requires Ready(db, id, a, c)
    ensures var d := Process(db, id, a, c, faults, cfg, updateTopic);
      id in d.aliases &&
      (d.aliases[id].status == Active || d.aliases[id].status.Error?) &&
      (d.aliases[id].status == Active ==> Merged(db, d, id, a, c)) &&
      FailureReports(d.log, id) ==
        FailureReports(db.log, id) + (if d.aliases[id].status.Error? && updateTopic then 1 else 0)
  {
    ProcessOutcomeFrom(db, id, a, c, faults, 0, cfg, updateTopic);
    ProcessMergesFrom(db, db, id, a, c, faults, 0, cfg, updateTopic);
  }

  /** Alias `id` is `a -> c`, both tags exist, and the alias fails validation
      as processing. */
  predicate Refusing(db: Db, id: nat, a: string, c: string) {
    Ready(db, id, a, c) && AliasErrors(db.aliases, id, db.aliases[id].(status := Processing)) != []
  }

  /** The message of the validation failure of a refusing alias. */
  function RefusalMessage(db: Db, id: nat): string
    requires id in db.aliases
  {
    var r := db.aliases[id].(status := Processing);
    ValidationFailed(AliasErrors(db.aliases, id, r), r)
  }

  /** An alias that fails validation fails every retry the same way: it ends
      in the error status carrying the validation message, and nothing but
      its status and the log changes. */
  lemma InvalidAliasFailsFrom(db: Db, id: nat, a: string, c: string, tries: nat, cfg: Config, updateTopic: bool)
    requires tries <= MaxRetries && Refusing(db, id, a, c)
    ensures var d := ProcessFrom(db, id, a, c, [], tries, cfg, updateTopic);
      d == db.(aliases := db.aliases[id := db.aliases[id].(status := Error(RefusalMessage(db, id)))], log := d.log)
  {
    AttemptRefused(db, id, a, c, None, cfg, updateTopic);
    RefusedRescue(db, id, a, c, tries, cfg, updateTopic);
  }

  /** The rescue of a refused attempt: each retry is refused again with the
      same message, until the alias is marked failed with it. */
  lemma {:induction false} RefusedRescue(db: Db, id: nat, a: string, c: string, tries: nat,
                                         cfg: Config, updateTopic: bool)
    requires tries <= MaxRetries && Refusing(db, id, a, c)
    ensures var d := Rescue(Raised(db, RefusalMessage(db, id)), id, a, c, [], tries, cfg, updateTopic);
      d == db.(aliases := db.aliases[id := db.aliases[id].(status := Error(RefusalMessage(db, id)))], log := d.log)
    decreases MaxRetries - tries
  {
    if tries < MaxRetries && !cfg.testEnv {
      RetryRefused(db, id, a, c, tries, cfg, updateTopic);
      RefusedRescue(db.(log := db.log + [Slept(Pow2(tries + 1))]), id, a, c, tries + 1, cfg, updateTopic);
    } else {
      GaveUp(db, id, a, c, RefusalMessage(db, id), tries, cfg, updateTopic);
    }
  }

  /** A refused attempt with retries left sleeps and starts over on the same
      rows, which refuse the alias again with the same message. */
  lemma RetryRefused(db: Db, id: nat, a: string, c: string, tries: nat, cfg: Config, updateTopic: bool)
    requires tries < MaxRetries && !cfg.testEnv && Refusing(db, id, a, c)
    ensures var slept := db.(log := db.log + [Slept(Pow2(tries + 1))]);
      Refusing(slept, id, a, c) && RefusalMessage(slept, id) == RefusalMessage(db, id) &&
      Rescue(Raised(db, RefusalMessage(db, id)), id, a, c, [], tries, cfg, updateTopic) ==
        Rescue(Raised(slept, RefusalMessage(slept, id)), id, a, c, [], tries + 1, cfg, updateTopic)
  {
    var slept := db.(log := db.log + [Slept(Pow2(tries + 1))]);
    assert slept.aliases == db.aliases && slept.tags == db.tags;
    Retried(Raised(db, RefusalMessage(db, id)), id, a, c, [], tries, cfg, updateTopic);
    AttemptRefused(slept, id, a, c, None, cfg, updateTopic);
    RetryStep(slept, id, a, c, [], tries + 1, cfg, updateTopic);
  }

  /** Out of retries, or in the test environment: the alias is marked failed. */
  lemma GaveUp(db: Db, id: nat, a: string, c: string, message: string, tries: nat, cfg: Config, updateTopic: bool)
    requires tries <= MaxRetries && Ready(db, id, a, c) && !(tries < MaxRetries && !cfg.testEnv)
    ensures var d := Rescue(Raised(db, message), id, a, c, [], tries, cfg, updateTopic);
      d == db.(aliases := db.aliases[id := db.aliases[id].(status := Error(message))], log := d.log)
  {
    var f := WithForumUpdate(db, id, ForumAction.Failed, updateTopic);
    assert f.aliases == db.aliases;
  }

  /** A valid alias with no injected fault is processed by the first attempt,
      without sleeping. */
  lemma ValidAliasFirstAttempt(db: Db, id: nat, a: string, c: string, cfg: Config, updateTopic: bool)
    requires Ready(db, id, a, c)
    requires AliasErrors(db.aliases, id, db.aliases[id].(status := Processing)) == []
    ensures Process(db, id, a, c, [], cfg, updateTopic) == Attempt(db, id, a, c, None, cfg, updateTopic).db
    ensures var d := Process(db, id, a, c, [], cfg, updateTopic);
      id in d.aliases && d.aliases[id].status == Active
  {
    AttemptWithoutFault(db, id, a, c, cfg, updateTopic);
    AttemptCompleted(db, id, a, c, None, cfg, updateTopic);
  }
}
