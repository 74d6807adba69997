/**
 * The data backfill of the "simplify model version links" migration.
 *
 * Before the migration, every row of the `model_versions_artifacts` link
 * table carries two flags, `is_model_artifact` and `is_deployment_artifact`.
 * The migration reads the link rows in whatever order the database returns
 * them, and moves the classification onto the artifact version itself: the
 * first link row of an artifact version that has either flag set decides its
 * type, the model flag winning over the deployment flag within a row.
 *
 * The reading of the link table is an input sequence of rows; the artifact
 * version table's `type` column is a map from artifact version id to type
 * name, and the batched UPDATE statement is a function on that map.
 */
module SimplifyModelVersionLinks {

  /** An artifact version id, as stored in the link table. */
  type ArtifactVersionId = string

  datatype Option<T> = None | Some(value: T)

  /** The two artifact types the backfill writes. */
  datatype ArtifactType = ModelArtifact | ServiceArtifact
  {
    /** The value stored in the `type` column of the artifact version table. */
    function Name(): string
    {
      match this
      case ModelArtifact => "ModelArtifact"
      case ServiceArtifact => "ServiceArtifact"
    }
  }

  /** One row of the link table, projected to the three columns read. */
  datatype LinkRow = LinkRow(
    artifactVersionId: ArtifactVersionId,
    isModelArtifact: bool,
    isDeploymentArtifact: bool)

  /** One pending update: set the type of artifact version `id`. */
  datatype Update = Update(id: ArtifactVersionId, artifactType: ArtifactType)

  /** The type a single link row asks for, if any. */
  function RowType(row: LinkRow): (t: Option<ArtifactType>)
    ensures t == Some(ModelArtifact) <==> row.isModelArtifact
    ensures t == Some(ServiceArtifact) <==> !row.isModelArtifact && row.isDeploymentArtifact
    ensures t == None <==> !row.isModelArtifact && !row.isDeploymentArtifact
  {
    if row.isModelArtifact then Some(ModelArtifact)
    else if row.isDeploymentArtifact then Some(ServiceArtifact)
    else None
  }

  /** Row `row` is a link of artifact version `id` with at least one flag set. */
  predicate Resolves(row: LinkRow, id: ArtifactVersionId)
  {
    row.artifactVersionId == id && RowType(row).Some?
  }

  /** The index of the first row, in read order, that resolves `id`. */
  function FirstIndex(rows: seq<LinkRow>, id: ArtifactVersionId): (r: Option<nat>)
    ensures r.Some? ==>
      && r.value < |rows|
      && Resolves(rows[r.value], id)
      && forall j {:trigger Resolves(rows[j], id)} :: 0 <= j < r.value ==> !Resolves(rows[j], id)
    ensures r.None? ==> forall j {:trigger Resolves(rows[j], id)} :: 0 <= j < |rows| ==> !Resolves(rows[j], id)
  {
    if rows == [] then None
    else if Resolves(rows[0], id) then Some(0)
    else
      match FirstIndex(rows[1..], id)
      case None => None
      case Some(k) => Some(k + 1)
  }

  /** The type that the first resolving row of `id` asks for, if there is one. */
  function FirstType(rows: seq<LinkRow>, id: ArtifactVersionId): (t: Option<ArtifactType>)
    ensures t.Some? <==> exists j :: 0 <= j < |rows| && Resolves(rows[j], id)
  {
    match FirstIndex(rows, id)
    case None => None
    case Some(k) => RowType(rows[k])
  }

  /**
   * The position in read order of the first row resolving `id`, or the
   * number of rows when there is none.
   */
  function Rank(rows: seq<LinkRow>, id: ArtifactVersionId): nat
  {
    match FirstIndex(rows, id)
    case Some(k) => k
    case None => |rows|
  }

  /** Row `i` or a later one is the first resolving row of `id`. */
  predicate ResolvedFrom(rows: seq<LinkRow>, id: ArtifactVersionId, i: nat)
  {
    FirstIndex(rows, id).Some? && i <= FirstIndex(rows, id).value
  }

  /** Row `i` is the first row, in read order, that resolves its artifact version. */
  predicate IsFirstResolving(rows: seq<LinkRow>, i: nat)
    requires i < |rows|
  {
    FirstIndex(rows, rows[i].artifactVersionId) == Some(i)
  }

  /** The update row `i` contributes: one when it is the first resolving row of its artifact version. */
  function Contribution(rows: seq<LinkRow>, i: nat): seq<Update>
    requires i < |rows|
  {
    if IsFirstResolving(rows, i)
    then [Update(rows[i].artifactVersionId, RowType(rows[i]).value)]
    else []
  }

  /** The updates contributed by rows `i..`, in read order. */
  function UpdatesFrom(rows: seq<LinkRow>, i: nat): seq<Update>
    requires i <= |rows|
    decreases |rows| - i
  {
    if i == |rows| then [] else Contribution(rows, i) + UpdatesFrom(rows, i + 1)
  }

  /** The list of pending updates the backfill must produce for `rows`. */
  function PendingUpdates(rows: seq<LinkRow>): seq<Update>
  {
    UpdatesFrom(rows, 0)
  }

  /** The artifact version ids named by a list of updates. */
  function IdsOf(updates: seq<Update>): set<ArtifactVersionId>
  {
    set u | u in updates :: u.id
  }

  /**
   * The batched `UPDATE artifact_version SET type = :type WHERE id = :id_`,
   * executed once per pending update, on the `type` column seen as a map.
   * An update whose id names no artifact version matches no row.
   */
  function ApplyBatch(types: map<ArtifactVersionId, string>, updates: seq<Update>)
    : (r: map<ArtifactVersionId, string>)
    ensures r.Keys == types.Keys
    ensures forall id :: id in types && id !in IdsOf(updates) ==> r[id] == types[id]
  {
    if updates == [] then types
    else
      var u := updates[0];
      ApplyBatch(if u.id in types then types[u.id := u.artifactType.Name()] else types, updates[1..])
  }

  /** The type artifact version `id` carries once the backfill has run. */
  function TypeAfterBackfill(rows: seq<LinkRow>, types: map<ArtifactVersionId, string>, id: ArtifactVersionId): string
    requires id in types
  {
    match FirstType(rows, id)
    case Some(t) => t.Name()
    case None => types[id]
  }

  /**
   * The artifact-type backfill: one pass over the link rows with a set of
   * artifact versions already resolved, then one batched update, issued
   * only when there is something to update.
   */
  method MigrateArtifactType(rows: seq<LinkRow>, types: map<ArtifactVersionId, string>)
    returns (updates: seq<Update>, issued: bool, migrated: map<ArtifactVersionId, string>)
    ensures updates == PendingUpdates(rows)
    ensures issued <==> updates != []
    ensures migrated.Keys == types.Keys
    ensures forall id :: id in types ==> migrated[id] == TypeAfterBackfill(rows, types, id)
  {
    var updated: set<ArtifactVersionId> := {};
    updates := [];
    for i := 0 to |rows|
      invariant updated == IdsOf(updates)
      invariant updates + UpdatesFrom(rows, i) == PendingUpdates(rows)
      invariant forall id :: id in updated <==> Rank(rows, id) < i
    {
      var row := rows[i];
      ReadStep(rows, i, updated, updates);
      if row.artifactVersionId in updated {
        // Already resolved by an earlier row: it is updated only once.
        continue;
      }
      if row.isModelArtifact {
        updated := updated + {row.artifactVersionId};
        updates := updates + [Update(row.artifactVersionId, ModelArtifact)];
      } else if row.isDeploymentArtifact {
        updated := updated + {row.artifactVersionId};
        updates := updates + [Update(row.artifactVersionId, ServiceArtifact)];
      }
    }
    issued := updates != [];
    migrated := types;
    if issued {
      migrated := ApplyBatch(types, updates);
    }
    BackfillSetsFirstType(rows, types);
  }

  /**
   * Reading row `i` keeps the loop invariant of MigrateArtifactType: when
   * the row is skipped or has no flag set, with nothing recorded, and
   * otherwise with its artifact version marked and its update appended.
   */
  lemma ReadStep(rows: seq<LinkRow>, i: nat, updated: set<ArtifactVersionId>, updates: seq<Update>)
    requires i < |rows|
    requires updated == IdsOf(updates)
    requires updates + UpdatesFrom(rows, i) == PendingUpdates(rows)
    requires forall id :: id in updated <==> Rank(rows, id) < i
    ensures rows[i].artifactVersionId in updated || RowType(rows[i]).None? ==>
      && updates + UpdatesFrom(rows, i + 1) == PendingUpdates(rows)
      && forall id :: id in updated <==> Rank(rows, id) < i + 1
    ensures rows[i].artifactVersionId !in updated && RowType(rows[i]).Some? ==>
      var u := Update(rows[i].artifactVersionId, RowType(rows[i]).value);
      && updated + {u.id} == IdsOf(updates + [u])
      && (updates + [u]) + UpdatesFrom(rows, i + 1) == PendingUpdates(rows)
      && forall id :: id in updated + {u.id} <==> Rank(rows, id) < i + 1
  {
    var id := rows[i].artifactVersionId;
    var rest := UpdatesFrom(rows, i + 1);
    forall x | Rank(rows, x) == i
      ensures x == id && IsFirstResolving(rows, i)
    {
    }
    if id !in updated && RowType(rows[i]).Some? {
      assert Resolves(rows[i], id);
      assert IsFirstResolving(rows, i);
      var u := Update(id, RowType(rows[i]).value);
      assert UpdatesFrom(rows, i) == [u] + rest;
      assert (updates + [u]) + rest == updates + ([u] + rest);
      IdsOfAppend(updates, [u]);
      assert IdsOf([u]) == {u.id};
    } else {
      assert !IsFirstResolving(rows, i);
      assert UpdatesFrom(rows, i) == rest;
    }
  }

  // ---------------------------------------------------------------------
  // Properties of the pending update list

  lemma IdsOfAppend(updates: seq<Update>, more: seq<Update>)
    ensures IdsOf(updates + more) == IdsOf(updates) + IdsOf(more)
  {
    assert forall v :: v in updates + more <==> v in updates || v in more;
  }

  lemma {:induction false} UpdatesFromLength(rows: seq<LinkRow>, i: nat)
    requires i <= |rows|
    ensures |UpdatesFrom(rows, i)| <= |rows| - i
    decreases |rows| - i
  {
    if i < |rows| {
      UpdatesFromLength(rows, i + 1);
    }
  }

  /** Every update from row `i` on is decided by its first resolving row, which is at `i` or later. */
  lemma {:induction false} UpdatesFromEntries(rows: seq<LinkRow>, i: nat)
    requires i <= |rows|
    ensures forall u :: u in UpdatesFrom(rows, i) ==>
      ResolvedFrom(rows, u.id, i) && RowType(rows[FirstIndex(rows, u.id).value]) == Some(u.artifactType)
    decreases |rows| - i
  {
    if i < |rows| {
      UpdatesFromEntries(rows, i + 1);
    }
  }

  /** The `k`-th update from row `i` on is ranked at `i` or later. */
  lemma {:induction false} UpdatesFromRankAt(rows: seq<LinkRow>, i: nat, k: nat)
    requires i <= |rows| && k < |UpdatesFrom(rows, i)|
    ensures i <= Rank(rows, UpdatesFrom(rows, i)[k].id)
    decreases |rows| - i
  {
    var head := Contribution(rows, i);
    var rest := UpdatesFrom(rows, i + 1);
    assert UpdatesFrom(rows, i) == head + rest;
    if k < |head| {
      assert UpdatesFrom(rows, i)[k] == head[0];
      assert FirstIndex(rows, head[0].id) == Some(i);
    } else {
      assert UpdatesFrom(rows, i)[k] == rest[k - |head|];
      UpdatesFromRankAt(rows, i + 1, k - |head|);
    }
  }

  /** The `j`-th update from row `i` on is ranked before the `k`-th one when `j < k`. */
  lemma {:induction false} UpdatesFromOrderedAt(rows: seq<LinkRow>, i: nat, j: nat, k: nat)
    requires i <= |rows| && j < k < |UpdatesFrom(rows, i)|
    ensures Rank(rows, UpdatesFrom(rows, i)[j].id) < Rank(rows, UpdatesFrom(rows, i)[k].id)
    decreases |rows| - i
  {
    var head := Contribution(rows, i);
    var rest := UpdatesFrom(rows, i + 1);
    var all := UpdatesFrom(rows, i);
    assert all == head + rest;
    assert all[k] == rest[k - |head|];
    if j < |head| {
      assert all[j] == head[0];
      assert FirstIndex(rows, head[0].id) == Some(i);
      UpdatesFromRankAt(rows, i + 1, k - |head|);
    } else {
      assert all[j] == rest[j - |head|];
      UpdatesFromOrderedAt(rows, i + 1, j - |head|, k - |head|);
    }
  }

  /** The updates from row `i` on come in the order of their first resolving rows. */
  lemma UpdatesFromOrdered(rows: seq<LinkRow>, i: nat)
    requires i <= |rows|
    ensures forall j, k :: 0 <= j < k < |UpdatesFrom(rows, i)| ==>
      Rank(rows, UpdatesFrom(rows, i)[j].id) < Rank(rows, UpdatesFrom(rows, i)[k].id)
  {
    forall j, k | 0 <= j < k < |UpdatesFrom(rows, i)|
      ensures Rank(rows, UpdatesFrom(rows, i)[j].id) < Rank(rows, UpdatesFrom(rows, i)[k].id)
    {
      UpdatesFromOrderedAt(rows, i, j, k);
    }
  }

  /** The artifact versions updated from row `i` on are those first resolved at `i` or later. */
  lemma {:induction false} UpdatesFromIds(rows: seq<LinkRow>, i: nat)
    requires i <= |rows|
    ensures forall id :: id in IdsOf(UpdatesFrom(rows, i)) <==> ResolvedFrom(rows, id, i)
    decreases |rows| - i
  {
    if i < |rows| {
      UpdatesFromIds(rows, i + 1);
      ContributionIds(rows, i);
      IdsOfAppend(Contribution(rows, i), UpdatesFrom(rows, i + 1));
    }
  }

  /** Row `i` contributes an update for exactly the artifact version it resolves first. */
  lemma ContributionIds(rows: seq<LinkRow>, i: nat)
    requires i < |rows|
    ensures forall id :: id in IdsOf(Contribution(rows, i)) <==> FirstIndex(rows, id) == Some(i)
  {
    if IsFirstResolving(rows, i) {
      assert IdsOf(Contribution(rows, i)) == {rows[i].artifactVersionId};
    } else {
      assert IdsOf(Contribution(rows, i)) == {};
    }
  }

  /** Each artifact version is named by at most one pending update. */
  lemma PendingUpdatesDistinct(rows: seq<LinkRow>)
    ensures forall j, k :: 0 <= j < k < |PendingUpdates(rows)| ==>
      PendingUpdates(rows)[j].id != PendingUpdates(rows)[k].id
  {
    UpdatesFromOrdered(rows, 0);
  }

  /**
   * An artifact version gets a pending update exactly when one of its link
   * rows has either flag set; rows with neither flag never contribute.
   */
  lemma PendingUpdatesIds(rows: seq<LinkRow>)
    ensures forall id :: id in IdsOf(PendingUpdates(rows)) <==>
      exists j :: 0 <= j < |rows| && Resolves(rows[j], id)
  {
    UpdatesFromIds(rows, 0);
  }

  /**
   * The type recorded for an artifact version is the one asked for by its
   * first resolving row in read order.
   */
  lemma PendingUpdatesFirstWins(rows: seq<LinkRow>)
    ensures forall u :: u in PendingUpdates(rows) ==> FirstType(rows, u.id) == Some(u.artifactType)
  {
    UpdatesFromEntries(rows, 0);
  }

  /**
   * There are no more updates than rows, and the updates come in the order
   * of the rows that resolved them.
   */
  lemma PendingUpdatesOrdered(rows: seq<LinkRow>)
    ensures |PendingUpdates(rows)| <= |rows|
    ensures forall j, k :: 0 <= j < k < |PendingUpdates(rows)| ==>
      Rank(rows, PendingUpdates(rows)[j].id) < Rank(rows, PendingUpdates(rows)[k].id)
  {
    UpdatesFromLength(rows, 0);
    UpdatesFromOrdered(rows, 0);
  }

  /**
   * No update is issued exactly when no link row has either flag set; in
   * particular, when there are no link rows at all.
   */
  lemma PendingUpdatesEmpty(rows: seq<LinkRow>)
    ensures PendingUpdates(rows) == [] <==>
      forall j :: 0 <= j < |rows| ==> !rows[j].isModelArtifact && !rows[j].isDeploymentArtifact
  {
    var updates := PendingUpdates(rows);
    UpdatesFromIds(rows, 0);
    assert updates != [] ==> updates[0].id in IdsOf(updates);
    forall j | 0 <= j < |rows|
      ensures RowType(rows[j]).Some? ==> rows[j].artifactVersionId in IdsOf(updates)
    {
      assert RowType(rows[j]).Some? ==> Resolves(rows[j], rows[j].artifactVersionId);
    }
  }

  // ---------------------------------------------------------------------
  // Later rows cannot change earlier decisions

  /** An optional row index moved `n` rows further on. */
  function Shift(k: Option<nat>, n: nat): Option<nat>
  {
    match k
    case None => None
    case Some(j) => Some(j + n)
  }

  /**
   * FirstIndex looks at the first row, and otherwise at the rest one row
   * further on. This is one unfolding of its definition, stated in terms of
   * Shift so that FirstIndexAppend can use it without unfolding FirstIndex
   * on `a + b` itself.
   */
  lemma FirstIndexUnfold(rows: seq<LinkRow>, id: ArtifactVersionId)
    requires rows != []
    ensures FirstIndex(rows, id) ==
      if Resolves(rows[0], id) then Some(0) else Shift(FirstIndex(rows[1..], id), 1)
  {
  }

  /** The first resolving row of `a + b` is the first one in `a`, or else the first one in `b`. */
  lemma {:induction false} FirstIndexAppend(a: seq<LinkRow>, b: seq<LinkRow>, id: ArtifactVersionId)
    ensures FirstIndex(a, id).Some? ==> FirstIndex(a + b, id) == FirstIndex(a, id)
    ensures FirstIndex(a, id).None? ==> FirstIndex(a + b, id) == Shift(FirstIndex(b, id), |a|)
  {
    if a == [] {
      assert a + b == b;
      assert Shift(FirstIndex(b, id), 0) == FirstIndex(b, id);
    } else {
      var ab := a + b;
      assert ab[0] == a[0];
      assert ab[1..] == a[1..] + b;
      FirstIndexUnfold(a, id);
      FirstIndexUnfold(ab, id);
      if !Resolves(a[0], id) {
        FirstIndexAppend(a[1..], b, id);
        var inB := FirstIndex(b, id);
        assert Shift(Shift(inB, |a| - 1), 1) == Shift(inB, |a|);
      }
    }
  }

  /**
   * Concatenation regroups. Dafny knows this, but naming the instance keeps
   * the calc in UpdatesFromAppend cheap for the solver.
   */
  lemma AppendAssociative(x: seq<Update>, y: seq<Update>, z: seq<Update>)
    ensures x + (y + z) == (x + y) + z
  {
  }

  /** Appending rows leaves the first resolving rows among the earlier ones unchanged. */
  lemma AppendKeepsFirst(a: seq<LinkRow>, b: seq<LinkRow>, i: nat)
    requires i < |a|
    ensures Contribution(a + b, i) == Contribution(a, i)
  {
    assert (a + b)[i] == a[i];
    FirstIndexAppend(a, b, a[i].artifactVersionId);
  }

  lemma {:induction false} UpdatesFromAppend(a: seq<LinkRow>, b: seq<LinkRow>, i: nat)
    requires i <= |a|
    ensures UpdatesFrom(a + b, i) == UpdatesFrom(a, i) + UpdatesFrom(a + b, |a|)
    decreases |a| - i
  {
    var tail := UpdatesFrom(a + b, |a|);
    if i < |a| {
      calc {
        UpdatesFrom(a + b, i);
        Contribution(a + b, i) + UpdatesFrom(a + b, i + 1);
        { AppendKeepsFirst(a, b, i); UpdatesFromAppend(a, b, i + 1); }
        Contribution(a, i) + (UpdatesFrom(a, i + 1) + tail);
        { AppendAssociative(Contribution(a, i), UpdatesFrom(a, i + 1), tail); }
        (Contribution(a, i) + UpdatesFrom(a, i + 1)) + tail;
        UpdatesFrom(a, i) + tail;
      }
    } else {
      assert UpdatesFrom(a, i) == [];
      assert [] + tail == tail;
    }
  }

  /**
   * Appending link rows only appends pending updates: the updates decided
   * by the rows read so far, and their types, never change.
   */
  lemma PendingUpdatesPrefix(a: seq<LinkRow>, b: seq<LinkRow>)
    ensures PendingUpdates(a) <= PendingUpdates(a + b)
    ensures forall id :: FirstType(a, id).Some? ==> FirstType(a + b, id) == FirstType(a, id)
  {
    UpdatesFromAppend(a, b, 0);
    forall id | FirstType(a, id).Some?
      ensures FirstType(a + b, id) == FirstType(a, id)
    {
      FirstIndexAppend(a, b, id);
      assert (a + b)[FirstIndex(a, id).value] == a[FirstIndex(a, id).value];
    }
  }

  // ---------------------------------------------------------------------
  // Rows with neither flag set are ignored

  /** Inserting a row with no flag set moves first resolving rows past it by one. */
  lemma FirstIndexInsert(a: seq<LinkRow>, r: LinkRow, b: seq<LinkRow>, id: ArtifactVersionId)
    requires RowType(r).None?
    ensures FirstIndex(a, id).Some? ==> FirstIndex(a + [r] + b, id) == FirstIndex(a, id)
    ensures FirstIndex(a, id).None? ==> FirstIndex(a + [r] + b, id) == Shift(FirstIndex(b, id), |a| + 1)
  {
    FirstIndexAppend(a, [r], id);
    FirstIndexAppend(a + [r], b, id);
    assert FirstIndex([r], id) == None by {
      assert [r][1..] == [];
    }
  }

  /** Before the inserted row, rows and their first-resolving status are unchanged. */
  lemma InsertKeepsFirstBefore(a: seq<LinkRow>, r: LinkRow, b: seq<LinkRow>, i: nat)
    requires RowType(r).None?
    requires i < |a|
    ensures Contribution(a + [r] + b, i) == Contribution(a + b, i)
  {
    assert (a + [r] + b)[i] == (a + b)[i];
    FirstIndexInsert(a, r, b, a[i].artifactVersionId);
    FirstIndexAppend(a, b, a[i].artifactVersionId);
  }

  /** Shifting one row further moves a hit at `i` to `i + 1`. */
  lemma ShiftStep(k: Option<nat>, n: nat, i: nat)
    ensures Shift(k, n + 1) == Some(i + 1) <==> Shift(k, n) == Some(i)
  {
  }

  /** After the inserted row, each row moved by one is the same row and keeps its first-resolving status. */
  lemma InsertKeepsResolvingAfter(a: seq<LinkRow>, r: LinkRow, b: seq<LinkRow>, i: nat)
    requires RowType(r).None?
    requires |a| <= i < |a| + |b|
    ensures (a + [r] + b)[i + 1] == (a + b)[i]
    ensures IsFirstResolving(a + [r] + b, i + 1) == IsFirstResolving(a + b, i)
  {
    var row := b[i - |a|];
    var id := row.artifactVersionId;
    assert (a + [r] + b)[i + 1] == row;
    assert (a + b)[i] == row;
    FirstIndexInsert(a, r, b, id);
    FirstIndexAppend(a, b, id);
    ShiftStep(FirstIndex(b, id), |a|, i);
  }

  /** After the inserted row, each row moved by one contributes what it did before. */
  lemma InsertKeepsFirstAfter(a: seq<LinkRow>, r: LinkRow, b: seq<LinkRow>, i: nat)
    requires RowType(r).None?
    requires |a| <= i < |a| + |b|
    ensures Contribution(a + [r] + b, i + 1) == Contribution(a + b, i)
  {
    InsertKeepsResolvingAfter(a, r, b, i);
  }

  lemma {:induction false} UpdatesFromInsertAfter(a: seq<LinkRow>, r: LinkRow, b: seq<LinkRow>, i: nat)
    requires RowType(r).None?
    requires |a| <= i <= |a| + |b|
    ensures UpdatesFrom(a + [r] + b, i + 1) == UpdatesFrom(a + b, i)
    decreases |a| + |b| - i
  {
    if i < |a| + |b| {
      UpdatesFromInsertAfter(a, r, b, i + 1);
      InsertKeepsFirstAfter(a, r, b, i);
    }
  }

  lemma {:induction false} UpdatesFromInsertBefore(a: seq<LinkRow>, r: LinkRow, b: seq<LinkRow>, i: nat)
    requires RowType(r).None?
    requires i <= |a|
    ensures UpdatesFrom(a + [r] + b, i) == UpdatesFrom(a + b, i)
    decreases |a| - i
  {
    if i < |a| {
      UpdatesFromInsertBefore(a, r, b, i + 1);
      InsertKeepsFirstBefore(a, r, b, i);
    } else {
      UpdatesFromInsertAfter(a, r, b, i);
      assert (a + [r] + b)[i] == r;
      assert !IsFirstResolving(a + [r] + b, i);
    }
  }

  /** A link row with neither flag set, wherever it is read, changes nothing. */
  lemma PendingUpdatesIgnoreUnflagged(a: seq<LinkRow>, r: LinkRow, b: seq<LinkRow>)
    requires !r.isModelArtifact && !r.isDeploymentArtifact
    ensures PendingUpdates(a + [r] + b) == PendingUpdates(a + b)
  {
    UpdatesFromInsertBefore(a, r, b, 0);
  }

  // ---------------------------------------------------------------------
  // The effect of the batched update on the artifact version table

  /**
   * With distinct ids, the batch leaves the set of artifact versions alone,
   * gives each updated one the type of its update, and leaves the rest as
   * they were.
   */
  lemma {:induction false} ApplyBatchEffect(types: map<ArtifactVersionId, string>, updates: seq<Update>)
    requires forall j, k :: 0 <= j < k < |updates| ==> updates[j].id != updates[k].id
    ensures ApplyBatch(types, updates).Keys == types.Keys
    ensures forall u :: u in updates && u.id in types ==>
      ApplyBatch(types, updates)[u.id] == u.artifactType.Name()
    ensures forall id :: id in types && id !in IdsOf(updates) ==>
      ApplyBatch(types, updates)[id] == types[id]
  {
    if updates != [] {
      var first := updates[0];
      var next := if first.id in types then types[first.id := first.artifactType.Name()] else types;
      var rest := updates[1..];
      ApplyBatchEffect(next, rest);
      assert updates == [first] + rest;
      IdsOfAppend([first], rest);
      assert IdsOf([first]) == {first.id};
      forall v | v in rest
        ensures v.id != first.id
      {
        var m :| 0 <= m < |rest| && rest[m] == v;
        assert updates[m + 1] == v;
      }
      assert first.id !in IdsOf(rest);
    }
  }

  /**
   * After the backfill, every artifact version that some link row flagged
   * carries the type of its first flagged row, and every other artifact
   * version keeps the type it had.
   */
  lemma BackfillSetsFirstType(rows: seq<LinkRow>, types: map<ArtifactVersionId, string>)
    ensures ApplyBatch(types, PendingUpdates(rows)).Keys == types.Keys
    ensures forall id :: id in types ==>
      ApplyBatch(types, PendingUpdates(rows))[id] == TypeAfterBackfill(rows, types, id)
  {
    var updates := PendingUpdates(rows);
    UpdatesFromIds(rows, 0);
    PendingUpdatesDistinct(rows);
    PendingUpdatesFirstWins(rows);
    ApplyBatchEffect(types, updates);
    forall id | id in types && id in IdsOf(updates)
      ensures ApplyBatch(types, updates)[id] == TypeAfterBackfill(rows, types, id)
    {
      var u :| u in updates && u.id == id;
    }
  }

  // ---------------------------------------------------------------------
  // A worked example

  /**
   * Links (A, model), (B, deployment), (A, deployment) give exactly two
   * updates: A becomes a model artifact, because its first row wins, and B
   * a service artifact.
   */
  lemma ExampleFirstRowWins()
    ensures PendingUpdates([LinkRow("A", true, false), LinkRow("B", false, true), LinkRow("A", false, true)])
      == [Update("A", ModelArtifact), Update("B", ServiceArtifact)]
  {
  }

  /**
   * Across rows the first flagged row wins even over a later model flag:
   * links (A, deployment), (A, model) make A a service artifact.
   */
  lemma ExampleEarlierDeploymentWins()
    ensures PendingUpdates([LinkRow("A", false, true), LinkRow("A", true, false)])
      == [Update("A", ServiceArtifact)]
  {
  }
}
