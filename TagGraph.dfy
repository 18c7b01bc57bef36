/**
 * Tag aliases and tag implications as records, the validation rules an alias
 * is saved under, the preview `list_transitives` gives of what processing an
 * alias will touch, and what `move_aliases_and_implications` does to the two
 * tables.
 *
 * Both tables map a record id to its record. The `active` and
 * `duplicate_relevant` scopes belong to TagRelationship, which is not part of
 * this model; they are taken to be {active, processing, queued} and that set
 * plus pending.
 */
module TagGraph {
  import opened Wrappers

  /** The `status` column; `"error: ..."` carries its message. */
  datatype Status = Pending | Queued | Processing | Active | Deleted | Error(message: string)

  predicate InActiveScope(s: Status) {
    s == Active || s == Processing || s == Queued
  }

  predicate InDuplicateRelevantScope(s: Status) {
    InActiveScope(s) || s == Pending
  }

  /** An alias or an implication: `antecedent -> consequent`. */
  datatype Relation = Relation(antecedent: string, consequent: string, status: Status,
                               approver: Option<nat>, postCount: int)

  // ---------------------------------------------------------------------
  // Validation of an alias

  /** The validation failures of an alias, in the order the rules run. */
  datatype AliasError = SelfReference | DuplicateAntecedent | TransitiveRelation

  function ErrorMessage(e: AliasError, r: Relation): string {
    match e
    case SelfReference => "Cannot alias a tag to itself"
    case DuplicateAntecedent => "Antecedent name has already been taken"
    case TransitiveRelation => "A tag alias for " + r.consequent + " already exists"
  }

  /** The uniqueness rule's test: another alias in the `duplicate_relevant`
      scope has the same antecedent. */
  predicate HasDuplicateAntecedent(aliases: map<nat, Relation>, id: nat, r: Relation) {
    exists other :: other in aliases && other != id &&
      InDuplicateRelevantScope(aliases[other].status) && aliases[other].antecedent == r.antecedent
  }

  /** `TagAlias.active.exists?(antecedent_name: name)`. */
  predicate HasActiveAliasFrom(aliases: map<nat, Relation>, name: string) {
    exists other :: other in aliases && InActiveScope(aliases[other].status) && aliases[other].antecedent == name
  }

  /** The errors record `id` gets when it is saved as `r` while the table
      holds `aliases`. The last two rules are skipped for a deleted alias. */
  function AliasErrors(aliases: map<nat, Relation>, id: nat, r: Relation): seq<AliasError> {
    (if r.antecedent == r.consequent then [SelfReference] else []) +
    (if r.status != Deleted && HasDuplicateAntecedent(aliases, id, r) then [DuplicateAntecedent] else []) +
    (if r.status != Deleted && HasActiveAliasFrom(aliases, r.consequent) then [TransitiveRelation] else [])
  }

  /** `absence_of_transitive_relation`: a non-deleted alias `a -> b` is
      refused exactly when an alias starting at `b` is active, so no chain
      `a -> b -> c` can be approved after `b -> c`. */
  lemma AbsenceOfTransitiveRelation(aliases: map<nat, Relation>, id: nat, r: Relation)
    requires r.status != Deleted
    ensures TransitiveRelation in AliasErrors(aliases, id, r) <==>
              exists other :: other in aliases && InActiveScope(aliases[other].status) &&
                aliases[other].antecedent == r.consequent
  {
    var errs := AliasErrors(aliases, id, r);
    if TransitiveRelation in errs {
      assert HasActiveAliasFrom(aliases, r.consequent);
    }
  }

  /** A save fails with "Cannot alias a tag to itself" exactly when the alias
      would be a self-loop: the test `move_aliases_and_implications` destroys
      on. */
  lemma SelfReferenceExactly(aliases: map<nat, Relation>, id: nat, r: Relation)
    ensures SelfReference in AliasErrors(aliases, id, r) <==> r.antecedent == r.consequent
  {
    var errs := AliasErrors(aliases, id, r);
    if SelfReference in errs {
      var k :| 0 <= k < |errs| && errs[k] == SelfReference;
      assert r.antecedent == r.consequent;
    }
  }

  /** No two aliases in the `duplicate_relevant` scope share an antecedent: the
      uniqueness rule keeps this. */
  predicate UniqueAntecedents(aliases: map<nat, Relation>) {
    forall i, j ::
      (i in aliases && j in aliases && i != j &&
       InDuplicateRelevantScope(aliases[i].status) && InDuplicateRelevantScope(aliases[j].status)) ==>
        aliases[i].antecedent != aliases[j].antecedent
  }

  /** Saving a record that passed validation keeps antecedents unique. */
  lemma SaveKeepsUnique(aliases: map<nat, Relation>, id: nat, r: Relation)
    requires UniqueAntecedents(aliases)
    requires !InDuplicateRelevantScope(r.status) || AliasErrors(aliases, id, r) == []
    ensures UniqueAntecedents(aliases[id := r])
  {
    var m := aliases[id := r];
    forall i, j | i in m && j in m && i != j &&
      InDuplicateRelevantScope(m[i].status) && InDuplicateRelevantScope(m[j].status)
      ensures m[i].antecedent != m[j].antecedent
    {
      if i == id {
        assert !HasDuplicateAntecedent(aliases, id, r);
        assert j in aliases && j != id;
      } else if j == id {
        assert !HasDuplicateAntecedent(aliases, id, r);
        assert i in aliases && i != id;
      }
    }
  }

  /** The alias table of `to_aliased_with_originals`: antecedent to consequent
      for every alias in the `active` scope. */
  function ActiveTable(aliases: map<nat, Relation>): map<string, string>
    requires UniqueAntecedents(aliases)
  {
    map id | id in aliases && InActiveScope(aliases[id].status) :: aliases[id].antecedent := aliases[id].consequent
  }

  /** The table maps the antecedent of every active alias to its consequent,
      and holds nothing else. */
  lemma ActiveTableSpec(aliases: map<nat, Relation>)
    requires UniqueAntecedents(aliases)
    ensures forall id :: id in aliases && InActiveScope(aliases[id].status) ==>
              aliases[id].antecedent in ActiveTable(aliases) &&
              ActiveTable(aliases)[aliases[id].antecedent] == aliases[id].consequent
    ensures forall n :: n in ActiveTable(aliases) ==>
              exists id :: id in aliases && InActiveScope(aliases[id].status) &&
                           aliases[id].antecedent == n && aliases[id].consequent == ActiveTable(aliases)[n]
  {
  }

  // ---------------------------------------------------------------------
  // `list_transitives`: what processing `a -> c` will move

  datatype Transitive =
    | AliasEntry(id: nat, antecedent: string, consequent: string, newConsequent: string)
    | ImplicationEntry(id: nat, antecedent: string, consequent: string,
                       newAntecedent: string, newConsequent: string)

  /** `e` is one of the entries `list_transitives` reports for `a -> c`: an
      alias in the `duplicate_relevant` scope ending at `a`, or such an
      implication starting or ending at `a`, with the endpoints it will get. */
  predicate IsTransitive(e: Transitive, aliases: map<nat, Relation>, implications: map<nat, Relation>,
                         a: string, c: string)
  {
    match e
    case AliasEntry(id, x, y, z) =>
      id in aliases && InDuplicateRelevantScope(aliases[id].status) &&
      aliases[id].consequent == a && x == aliases[id].antecedent && y == a && z == c
    case ImplicationEntry(id, x, y, nx, ny) =>
      id in implications && InDuplicateRelevantScope(implications[id].status) &&
      x == implications[id].antecedent && y == implications[id].consequent &&
      ((x == a && nx == c && ny == y) || (x != a && y == a && nx == x && ny == c))
  }

  function EntryKey(e: Transitive): (bool, nat) {
    (e.AliasEntry?, e.id)
  }

  /** A complete preview: every entry is one, each record appears once, every
      such record appears, and the aliases come first. */
  predicate IsTransitiveList(es: seq<Transitive>, aliases: map<nat, Relation>,
                             implications: map<nat, Relation>, a: string, c: string)
  {
    (forall k :: 0 <= k < |es| ==> IsTransitive(es[k], aliases, implications, a, c)) &&
    (forall k, l :: 0 <= k < l < |es| ==> EntryKey(es[k]) != EntryKey(es[l])) &&
    (forall k, l :: 0 <= k < l < |es| && es[l].AliasEntry? ==> es[k].AliasEntry?) &&
    (forall id :: id in aliases && InDuplicateRelevantScope(aliases[id].status) && aliases[id].consequent == a ==>
       exists k :: 0 <= k < |es| && es[k] == AliasEntry(id, aliases[id].antecedent, a, c)) &&
    (forall id ::
       (id in implications && InDuplicateRelevantScope(implications[id].status) &&
        (implications[id].antecedent == a || implications[id].consequent == a)) ==>
         exists k :: 0 <= k < |es| && es[k].ImplicationEntry? && es[k].id == id)
  }

  /** The first half of the preview: one entry for each alias in the
      `duplicate_relevant` scope ending at `a`, in no particular order. */
  predicate IsAliasPreview(es: seq<Transitive>, aliases: map<nat, Relation>,
                           implications: map<nat, Relation>, a: string, c: string)
  {
    (forall k :: 0 <= k < |es| ==> es[k].AliasEntry? && IsTransitive(es[k], aliases, implications, a, c)) &&
    (forall k, l :: 0 <= k < l < |es| ==> es[k].id != es[l].id) &&
    (forall id :: id in aliases && InDuplicateRelevantScope(aliases[id].status) && aliases[id].consequent == a ==>
       exists k :: 0 <= k < |es| && es[k] == AliasEntry(id, aliases[id].antecedent, a, c))
  }

  /** The second half: one entry for each implication in the scope that
      starts or ends at `a`. */
  predicate IsImplicationPreview(es: seq<Transitive>, aliases: map<nat, Relation>,
                                 implications: map<nat, Relation>, a: string, c: string)
  {
    (forall k :: 0 <= k < |es| ==> es[k].ImplicationEntry? && IsTransitive(es[k], aliases, implications, a, c)) &&
    (forall k, l :: 0 <= k < l < |es| ==> es[k].id != es[l].id) &&
    (forall id ::
       (id in implications && InDuplicateRelevantScope(implications[id].status) &&
        (implications[id].antecedent == a || implications[id].consequent == a)) ==>
         exists k :: 0 <= k < |es| && es[k].ImplicationEntry? && es[k].id == id)
  }

  /** `es` previews exactly the aliases in `done`, each once. */
  predicate AliasPreviewOf(es: seq<Transitive>, aliases: map<nat, Relation>,
                           implications: map<nat, Relation>, a: string, c: string, done: set<nat>)
  {
    (forall k :: 0 <= k < |es| ==>
       es[k].AliasEntry? && es[k].id in done && IsTransitive(es[k], aliases, implications, a, c)) &&
    (forall k, l :: 0 <= k < l < |es| ==> es[k].id != es[l].id) &&
    (forall j :: j in done ==>
       j in aliases && exists k :: 0 <= k < |es| && es[k] == AliasEntry(j, aliases[j].antecedent, a, c))
  }

  /** Appending the entry of one more alias ending at `a`. */
  lemma AliasPreviewStep(es: seq<Transitive>, aliases: map<nat, Relation>,
                         implications: map<nat, Relation>, a: string, c: string, done: set<nat>, j: nat)
    requires AliasPreviewOf(es, aliases, implications, a, c, done)
    requires j !in done && j in aliases && InDuplicateRelevantScope(aliases[j].status) && aliases[j].consequent == a
    ensures AliasPreviewOf(es + [AliasEntry(j, aliases[j].antecedent, a, c)], aliases, implications, a, c, done + {j})
  {
    var es' := es + [AliasEntry(j, aliases[j].antecedent, a, c)];
    forall i | i in done + {j}
      ensures i in aliases && exists k :: 0 <= k < |es'| && es'[k] == AliasEntry(i, aliases[i].antecedent, a, c)
    {
      if i == j {
        assert es'[|es|] == AliasEntry(i, aliases[i].antecedent, a, c);
      } else {
        var k :| 0 <= k < |es| && es[k] == AliasEntry(i, aliases[i].antecedent, a, c);
        assert es'[k] == es[k];
      }
    }
  }

  /** Once every alias ending at `a` is done, the preview is complete. */
  lemma AliasPreviewDone(es: seq<Transitive>, aliases: map<nat, Relation>,
                         implications: map<nat, Relation>, a: string, c: string, done: set<nat>)
    requires AliasPreviewOf(es, aliases, implications, a, c, done)
    requires done == set j | j in aliases && InDuplicateRelevantScope(aliases[j].status) && aliases[j].consequent == a
    ensures IsAliasPreview(es, aliases, implications, a, c)
  {
  }

  /** `es` previews exactly the implications in `done`, each once. */
  predicate ImplicationPreviewOf(es: seq<Transitive>, aliases: map<nat, Relation>,
                                 implications: map<nat, Relation>, a: string, c: string, done: set<nat>)
  {
    (forall k :: 0 <= k < |es| ==>
       es[k].ImplicationEntry? && es[k].id in done && IsTransitive(es[k], aliases, implications, a, c)) &&
    (forall k, l :: 0 <= k < l < |es| ==> es[k].id != es[l].id) &&
    (forall j :: j in done ==> exists k :: 0 <= k < |es| && es[k].ImplicationEntry? && es[k].id == j)
  }

  /** The entry `list_transitives` makes for the implication `j`. */
  function ImplicationEntryOf(implications: map<nat, Relation>, j: nat, a: string, c: string): (e: Transitive)
    requires j in implications
    ensures e.ImplicationEntry? && e.id == j
  {
    var r := implications[j];
    if r.antecedent == a then ImplicationEntry(j, r.antecedent, r.consequent, c, r.consequent)
    else ImplicationEntry(j, r.antecedent, r.consequent, r.antecedent, c)
  }

  /** Appending the entry of one more implication touching `a`. */
  lemma ImplicationPreviewStep(es: seq<Transitive>, aliases: map<nat, Relation>,
                               implications: map<nat, Relation>, a: string, c: string, done: set<nat>, j: nat)
    requires ImplicationPreviewOf(es, aliases, implications, a, c, done)
    requires (j !in done && j in implications && InDuplicateRelevantScope(implications[j].status) &&
              (implications[j].antecedent == a || implications[j].consequent == a))
    ensures ImplicationPreviewOf(es + [ImplicationEntryOf(implications, j, a, c)], aliases, implications, a, c, done + {j})
  {
    var es' := es + [ImplicationEntryOf(implications, j, a, c)];
    forall i | i in done + {j}
      ensures exists k :: 0 <= k < |es'| && es'[k].ImplicationEntry? && es'[k].id == i
    {
      if i == j {
        assert es'[|es|].id == i;
      } else {
        var k :| 0 <= k < |es| && es[k].ImplicationEntry? && es[k].id == i;
        assert es'[k] == es[k];
      }
    }
  }

  /** Once every implication touching `a` is done, the preview is complete. */
  lemma ImplicationPreviewDone(es: seq<Transitive>, aliases: map<nat, Relation>,
                               implications: map<nat, Relation>, a: string, c: string, done: set<nat>)
    requires ImplicationPreviewOf(es, aliases, implications, a, c, done)
    requires done == set j | (j in implications && InDuplicateRelevantScope(implications[j].status) &&
                              (implications[j].antecedent == a || implications[j].consequent == a))
    ensures IsImplicationPreview(es, aliases, implications, a, c)
  {
    forall id |
      (id in implications && InDuplicateRelevantScope(implications[id].status) &&
       (implications[id].antecedent == a || implications[id].consequent == a))
      ensures exists k :: 0 <= k < |es| && es[k].ImplicationEntry? && es[k].id == id
    {
      assert id in done;
    }
  }

  /** The aliases followed by the implications make the whole preview. */
  lemma PreviewJoin(al: seq<Transitive>, im: seq<Transitive>, aliases: map<nat, Relation>,
                    implications: map<nat, Relation>, a: string, c: string)
    requires IsAliasPreview(al, aliases, implications, a, c)
    requires IsImplicationPreview(im, aliases, implications, a, c)
    ensures IsTransitiveList(al + im, aliases, implications, a, c)
  {
    var es := al + im;
    forall id | id in aliases && InDuplicateRelevantScope(aliases[id].status) && aliases[id].consequent == a
      ensures exists k :: 0 <= k < |es| && es[k] == AliasEntry(id, aliases[id].antecedent, a, c)
    {
      var k :| 0 <= k < |al| && al[k] == AliasEntry(id, aliases[id].antecedent, a, c);
      assert es[k] == al[k];
    }
    forall id |
      (id in implications && InDuplicateRelevantScope(implications[id].status) &&
       (implications[id].antecedent == a || implications[id].consequent == a))
      ensures exists k :: 0 <= k < |es| && es[k].ImplicationEntry? && es[k].id == id
    {
      var k :| 0 <= k < |im| && im[k].ImplicationEntry? && im[k].id == id;
      assert es[|al| + k] == im[k];
    }
  }

  /** The preview is empty exactly when no record in the `duplicate_relevant`
      scope touches `a` the way `list_transitives` looks for. */
  lemma TransitiveListEmpty(es: seq<Transitive>, aliases: map<nat, Relation>,
                            implications: map<nat, Relation>, a: string, c: string)
    requires IsTransitiveList(es, aliases, implications, a, c)
    ensures es == [] <==>
      (forall id :: id in aliases && InDuplicateRelevantScope(aliases[id].status) ==> aliases[id].consequent != a) &&
      (forall id :: id in implications && InDuplicateRelevantScope(implications[id].status) ==>
         implications[id].antecedent != a && implications[id].consequent != a)
  {
    if es != [] {
      assert IsTransitive(es[0], aliases, implications, a, c);
    }
  }

  // ---------------------------------------------------------------------
  // `move_aliases_and_implications` for processing `a -> c`

  predicate EndsAt(r: Relation, a: string) {
    r.consequent == a
  }

  /** The aliases that end at `a`, except those starting at `c`, are re-pointed
      to `c` when the save passes validation and stay as they are otherwise;
      those that start at `c` would become self-loops and are destroyed. */
  function MovedAliases(aliases: map<nat, Relation>, a: string, c: string): map<nat, Relation> {
    map id | id in aliases && !(EndsAt(aliases[id], a) && aliases[id].antecedent == c) ::
      if EndsAt(aliases[id], a) && AliasErrors(aliases, id, aliases[id].(consequent := c)) == []
      then aliases[id].(consequent := c)
      else aliases[id]
  }

  /** Every re-pointing save passes: nothing else is in the way. */
  predicate MoveUnobstructed(aliases: map<nat, Relation>, a: string, c: string) {
    forall id :: id in aliases && EndsAt(aliases[id], a) && aliases[id].antecedent != c ==>
      AliasErrors(aliases, id, aliases[id].(consequent := c)) == []
  }

  /** The first implication pass: those starting at `a` start at `c` instead,
      or are destroyed when they end at `c`. */
  function MovedImplicationsFrom(implications: map<nat, Relation>, a: string, c: string): map<nat, Relation> {
    map id | id in implications && !(implications[id].antecedent == a && implications[id].consequent == c) ::
      if implications[id].antecedent == a then implications[id].(antecedent := c) else implications[id]
  }

  /** The second pass, over the table the first one left: those ending at `a`
      end at `c` instead, or are destroyed when they start at `c`. */
  function MovedImplicationsTo(implications: map<nat, Relation>, a: string, c: string): map<nat, Relation> {
    map id | id in implications && !(implications[id].consequent == a && implications[id].antecedent == c) ::
      if implications[id].consequent == a then implications[id].(consequent := c) else implications[id]
  }

  function MovedImplications(implications: map<nat, Relation>, a: string, c: string): map<nat, Relation> {
    MovedImplicationsTo(MovedImplicationsFrom(implications, a, c), a, c)
  }

  predicate NoSelfLoops(rs: map<nat, Relation>) {
    forall id :: id in rs ==> rs[id].antecedent != rs[id].consequent
  }

  /** `m` keeps some of the records of `aliases`, with the same antecedent and
      status: what validation looks at apart from the record being saved. */
  predicate Narrower(m: map<nat, Relation>, aliases: map<nat, Relation>) {
    forall id :: id in m ==>
      id in aliases && m[id].antecedent == aliases[id].antecedent && m[id].status == aliases[id].status
  }

  /** A save that passes against a table passes against a narrower one. */
  lemma ErrorsUnderNarrower(m: map<nat, Relation>, aliases: map<nat, Relation>, id: nat, r: Relation)
    requires Narrower(m, aliases)
    requires AliasErrors(aliases, id, r) == []
    ensures AliasErrors(m, id, r) == []
  {
  }

  lemma UniqueUnderNarrower(m: map<nat, Relation>, aliases: map<nat, Relation>)
    requires Narrower(m, aliases) && UniqueAntecedents(aliases)
    ensures UniqueAntecedents(m)
  {
  }

  lemma MovedAliasesNarrower(aliases: map<nat, Relation>, a: string, c: string)
    ensures Narrower(MovedAliases(aliases, a, c), aliases)
  {
  }

  /** After the move no alias ends at `a`, as long as every re-pointing save
      passes; each alias that ended at `a` is re-pointed to `c` or, when it
      started at `c`, destroyed; every other alias is untouched and no
      self-loop appears. */
  lemma MovedAliasesSpec(aliases: map<nat, Relation>, a: string, c: string)
    requires a != c && NoSelfLoops(aliases)
    ensures forall id :: id in MovedAliases(aliases, a, c) ==> id in aliases
    ensures forall id :: id in aliases && !EndsAt(aliases[id], a) ==>
              id in MovedAliases(aliases, a, c) && MovedAliases(aliases, a, c)[id] == aliases[id]
    ensures forall id :: id in aliases && EndsAt(aliases[id], a) ==>
              (id !in MovedAliases(aliases, a, c) <==> aliases[id].antecedent == c)
    ensures NoSelfLoops(MovedAliases(aliases, a, c))
    ensures MoveUnobstructed(aliases, a, c) ==>
              forall id :: id in MovedAliases(aliases, a, c) ==>
                !EndsAt(MovedAliases(aliases, a, c)[id], a) &&
                (EndsAt(aliases[id], a) ==> MovedAliases(aliases, a, c)[id] == aliases[id].(consequent := c))
  {
    var m := MovedAliases(aliases, a, c);
    forall id | id in m ensures m[id].antecedent != m[id].consequent {
      if EndsAt(aliases[id], a) && AliasErrors(aliases, id, aliases[id].(consequent := c)) == [] {
        assert m[id] == aliases[id].(consequent := c);
      }
    }
  }

  /** With no active alias starting at `c`, only the uniqueness rule can stop
      a re-pointing save, and it stops the same saves a second time: moving
      twice is moving once. */
  lemma MovedAliasesIdempotent(aliases: map<nat, Relation>, a: string, c: string)
    requires a != c
    requires !HasActiveAliasFrom(aliases, c)
    ensures MovedAliases(MovedAliases(aliases, a, c), a, c) == MovedAliases(aliases, a, c)
  {
    var m := MovedAliases(aliases, a, c);
    var mm := MovedAliases(m, a, c);
    MoveKeepsNoActiveFrom(aliases, a, c);
    forall id | id in m && EndsAt(m[id], a)
      ensures id in mm && mm[id] == m[id]
    {
      StillObstructed(aliases, a, c, id);
    }
    assert mm == m;
  }

  /** The move changes consequents only, so no active alias starts at `c`
      afterwards if none did before. */
  lemma MoveKeepsNoActiveFrom(aliases: map<nat, Relation>, a: string, c: string)
    requires !HasActiveAliasFrom(aliases, c)
    ensures !HasActiveAliasFrom(MovedAliases(aliases, a, c), c)
  {
    var m := MovedAliases(aliases, a, c);
    forall id | id in m && InActiveScope(m[id].status) ensures m[id].antecedent != c {
      assert m[id].status == aliases[id].status && m[id].antecedent == aliases[id].antecedent;
    }
  }

  /** The move only ever re-points an alias to `c`. */
  lemma MovedConsequents(aliases: map<nat, Relation>, a: string, c: string)
    ensures forall id :: id in MovedAliases(aliases, a, c) ==>
              id in aliases && MovedAliases(aliases, a, c)[id].consequent in {aliases[id].consequent, c}
  {
  }

  /** With antecedents unique and no active alias starting at `c`, every
      re-pointing save of an active alias passes: afterwards no active alias
      ends at `a`. */
  lemma MovedLeavesNoneAt(aliases: map<nat, Relation>, a: string, c: string)
    requires a != c && UniqueAntecedents(aliases) && !HasActiveAliasFrom(aliases, c)
    ensures forall id :: id in MovedAliases(aliases, a, c) && InActiveScope(MovedAliases(aliases, a, c)[id].status) ==>
              !EndsAt(MovedAliases(aliases, a, c)[id], a)
  {
    var m := MovedAliases(aliases, a, c);
    forall id | id in m && InActiveScope(m[id].status) && EndsAt(aliases[id], a)
      ensures m[id].consequent == c
    {
      var r := aliases[id].(consequent := c);
      assert !HasDuplicateAntecedent(aliases, id, r);
      assert AliasErrors(aliases, id, r) == [];
    }
  }

  /** An alias still ending at `a` after the move was refused the first time,
      and is refused again by the same duplicate-antecedent rule. */
  lemma StillObstructed(aliases: map<nat, Relation>, a: string, c: string, id: nat)
    requires a != c
    requires !HasActiveAliasFrom(aliases, c) && !HasActiveAliasFrom(MovedAliases(aliases, a, c), c)
    requires id in MovedAliases(aliases, a, c) && EndsAt(MovedAliases(aliases, a, c)[id], a)
    ensures id in MovedAliases(MovedAliases(aliases, a, c), a, c)
    ensures MovedAliases(MovedAliases(aliases, a, c), a, c)[id] == MovedAliases(aliases, a, c)[id]
  {
    var m := MovedAliases(aliases, a, c);
    var r := aliases[id];
    assert m[id] == r && EndsAt(r, a) && r.antecedent != c;
    assert AliasErrors(aliases, id, r.(consequent := c)) != [];
    if r.status != Deleted {
      assert HasDuplicateAntecedent(aliases, id, r.(consequent := c));
      var other :| other in aliases && other != id &&
        InDuplicateRelevantScope(aliases[other].status) && aliases[other].antecedent == r.antecedent;
      assert other in m;
      assert HasDuplicateAntecedent(m, id, m[id].(consequent := c));
    }
  }

  /** After both passes no implication starts or ends at `a`; each one that
      did is re-pointed to `c`, or destroyed when re-pointing would make it a
      self-loop; the others are untouched and no self-loop appears. */
  lemma MovedImplicationsSpec(implications: map<nat, Relation>, a: string, c: string)
    requires a != c && NoSelfLoops(implications)
    ensures forall id :: id in MovedImplications(implications, a, c) ==>
              id in implications &&
              MovedImplications(implications, a, c)[id].antecedent != a &&
              MovedImplications(implications, a, c)[id].consequent != a
    ensures forall id :: id in implications ==>
              (id !in MovedImplications(implications, a, c) <==>
                (implications[id].antecedent == a && implications[id].consequent == c) ||
                (implications[id].antecedent == c && implications[id].consequent == a))
    ensures forall id :: id in MovedImplications(implications, a, c) ==>
              MovedImplications(implications, a, c)[id] ==
                implications[id].(antecedent := if implications[id].antecedent == a then c else implications[id].antecedent,
                                  consequent := if implications[id].consequent == a then c else implications[id].consequent)
    ensures NoSelfLoops(MovedImplications(implications, a, c))
  {
  }

  /** The preview and the move agree: every alias the preview lists is
      re-pointed to the consequent it shows (when the save passes and it does
      not start at `c`), and every implication it lists gets the endpoints it
      shows (when it is not destroyed). */
  lemma PreviewMatchesMove(e: Transitive, aliases: map<nat, Relation>, implications: map<nat, Relation>,
                           a: string, c: string)
    requires a != c && NoSelfLoops(implications)
    requires IsTransitive(e, aliases, implications, a, c)
    ensures e.AliasEntry? && e.antecedent != c && MoveUnobstructed(aliases, a, c) ==>
              e.id in MovedAliases(aliases, a, c) &&
              MovedAliases(aliases, a, c)[e.id].antecedent == e.antecedent &&
              MovedAliases(aliases, a, c)[e.id].consequent == e.newConsequent
    ensures e.ImplicationEntry? && e.id in MovedImplications(implications, a, c) ==>
              MovedImplications(implications, a, c)[e.id].antecedent == e.newAntecedent &&
              MovedImplications(implications, a, c)[e.id].consequent == e.newConsequent
  {
    MovedImplicationsSpec(implications, a, c);
  }
}
