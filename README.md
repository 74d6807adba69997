# Artifact-type backfill of the "simplify model version links" migration

This project models the data step of the ZenML database migration
`ec6307720f92` ("Simplify model version links"). Before the migration, each
row of the `model_versions_artifacts` link table carries two flags:
`is_model_artifact` and `is_deployment_artifact`. The migration moves that
classification onto the artifact version itself, as the `type` column of
`artifact_version`.

`_migrate_artifact_type` reads every link row as a triple
`(artifact_version_id, is_model_artifact, is_deployment_artifact)`, in
whatever order the database returns them. It keeps a set `updated` of the
artifact versions already decided and builds a list `updates` of
`{id_, type}` entries:

- a row whose artifact version is already in `updated` is skipped;
- otherwise a set model flag records `ModelArtifact`;
- otherwise a set deployment flag records `ServiceArtifact`;
- a row with neither flag records nothing, so a later row of the same
  artifact version can still decide it.

When `updates` is not empty, one batched UPDATE writes each entry's type
onto the artifact version with that id.

All of it is in `simplify_model_version_links.dfy`, module
`SimplifyModelVersionLinks`:

- `LinkRow`, `Update` and `ArtifactType` are the link row, the pending
  update and the two type names written.
- `MigrateArtifactType` is the loop with its `updated` set, `continue` and
  two appending branches, followed by the `if updates:` guard. It returns
  the update list, whether the UPDATE statement is issued, and the
  artifact version table after the update.
- The reference definition it is proved against is `PendingUpdates`: one
  update for each row that is the first row, in read order, of its
  artifact version with either flag set (`FirstIndex`). The rows are taken
  in the order given, never sorted.
- The artifact version table's `type` column is a map from id to type
  name. The batched UPDATE is `ApplyBatch`: one `UPDATE ... WHERE id = :id_`
  per entry, which changes nothing when the id matches no row.

The precedence of the model flag holds within one link row only. Across
several link rows of the same artifact version, the code keeps the type of
the first row read with either flag set, even when a later row has the
model flag (`ExampleEarlierDeploymentWins`).

## Model

| member | source | states |
|---|---|---|
| `SimplifyModelVersionLinks.MigrateArtifactType` | src/zenml/zen_stores/migrations/versions/ec6307720f92_simplify_model_version_links.py:38-68 | The loop yields exactly the first-flagged-row update list `PendingUpdates(rows)`. Its invariants: `updated` equals the set of ids in `updates`, and an id is in `updated` exactly when its first flagged row has already been read. The statement is issued iff the list is non-empty. Afterwards the table has the same artifact versions, each of which carries the type of its first flagged link row, or keeps its old type when no row flags it. |
| `SimplifyModelVersionLinks.RowType` | src/zenml/zen_stores/migrations/versions/ec6307720f92_simplify_model_version_links.py:51-60 | Within one row the model flag wins: `ModelArtifact` iff `is_model_artifact` (also when both flags are set); `ServiceArtifact` iff only the deployment flag is set; nothing iff neither is set. |
| `SimplifyModelVersionLinks.FirstIndex` | src/zenml/zen_stores/migrations/versions/ec6307720f92_simplify_model_version_links.py:40-60 | Gives the index of the first row, in read order, of the artifact version with either flag set: that row resolves the id and no earlier row does. When there is none, no row resolves the id. |
| `SimplifyModelVersionLinks.FirstType` | src/zenml/zen_stores/migrations/versions/ec6307720f92_simplify_model_version_links.py:51-60 | An artifact version has a decided type iff at least one of its link rows has either flag set. |
| `SimplifyModelVersionLinks.PendingUpdatesDistinct` | src/zenml/zen_stores/migrations/versions/ec6307720f92_simplify_model_version_links.py:45-49 | No artifact version id appears twice in the update list: each artifact version is updated only once. |
| `SimplifyModelVersionLinks.PendingUpdatesIds` | src/zenml/zen_stores/migrations/versions/ec6307720f92_simplify_model_version_links.py:51-60 | An id gets an update iff at least one of its rows has `is_model_artifact` or `is_deployment_artifact` set. |
| `SimplifyModelVersionLinks.PendingUpdatesFirstWins` | src/zenml/zen_stores/migrations/versions/ec6307720f92_simplify_model_version_links.py:45-60 | Every update carries the type asked for by the first flagged row of its artifact version, in read order. |
| `SimplifyModelVersionLinks.PendingUpdatesOrdered` | src/zenml/zen_stores/migrations/versions/ec6307720f92_simplify_model_version_links.py:39-60 | There are no more updates than link rows. The updates appear in the read order of the rows that decided them. |
| `SimplifyModelVersionLinks.PendingUpdatesEmpty` | src/zenml/zen_stores/migrations/versions/ec6307720f92_simplify_model_version_links.py:62-68 | The update list is empty, so no statement is issued, iff no link row has either flag set. This includes the case of no link rows at all. |
| `SimplifyModelVersionLinks.PendingUpdatesPrefix` | src/zenml/zen_stores/migrations/versions/ec6307720f92_simplify_model_version_links.py:45-60 | Reading more rows only appends to the update list. An artifact version already decided keeps its type, whatever rows follow. |
| `SimplifyModelVersionLinks.PendingUpdatesIgnoreUnflagged` | src/zenml/zen_stores/migrations/versions/ec6307720f92_simplify_model_version_links.py:51-60 | A row with both flags false, wherever it is read, neither adds an entry nor marks its id: removing it leaves the update list unchanged. |
| `SimplifyModelVersionLinks.FirstIndexAppend` | src/zenml/zen_stores/migrations/versions/ec6307720f92_simplify_model_version_links.py:40-60 | The first flagged row of `a + b` for an id is its first flagged row in `a`, or else its first in `b`, shifted by the length of `a`. |
| `SimplifyModelVersionLinks.ApplyBatch` | src/zenml/zen_stores/migrations/versions/ec6307720f92_simplify_model_version_links.py:63-68 | The batched UPDATE: one `UPDATE ... SET type WHERE id = :id_` per entry, applied in list order. An entry whose id matches no artifact version has no effect. The set of artifact versions never changes, and an artifact version named by no entry keeps its type. |
| `SimplifyModelVersionLinks.ApplyBatchEffect` | src/zenml/zen_stores/migrations/versions/ec6307720f92_simplify_model_version_links.py:62-68 | With distinct ids, the batched UPDATE keeps the set of artifact versions. Each artifact version named by an update gets that update's type. Every other artifact version keeps its type. |
| `SimplifyModelVersionLinks.BackfillSetsFirstType` | src/zenml/zen_stores/migrations/versions/ec6307720f92_simplify_model_version_links.py:38-68 | After the backfill, every artifact version flagged by some link row carries the type of its first flagged row. Every other artifact version keeps its previous type. |
| `SimplifyModelVersionLinks.ExampleFirstRowWins` | src/zenml/zen_stores/migrations/versions/ec6307720f92_simplify_model_version_links.py:40-60 | The rows (A, model), (B, deployment), (A, deployment) yield exactly [(A, ModelArtifact), (B, ServiceArtifact)]: two updates from three rows, and A's first row wins. |
| `SimplifyModelVersionLinks.ExampleEarlierDeploymentWins` | src/zenml/zen_stores/migrations/versions/ec6307720f92_simplify_model_version_links.py:45-60 | The rows (A, deployment), (A, model) yield exactly [(A, ServiceArtifact)]: the model flag of a later row does not override an earlier deployment flag. |

## Left out

- The SQLAlchemy metadata reflection, `op.get_bind()` and the SELECT (lines 21-36) are not modelled. Their result is the input sequence of link rows, in an arbitrary order.
- The batched `sa.update` call (lines 63-68) is not modelled as SQL. It is modelled as a function on a map from artifact version id to type name. Statement batching, driver behaviour and columns other than `type` are not modelled.
- The schema changes in `upgrade` are not modelled: the foreign-key constraint and column drops on `model_versions_artifacts` and `model_versions_runs` (lines 77-108). They are a fixed list of calls into Alembic's schema-alteration batch, with no logic of their own.
- `downgrade` (lines 113-119) is not modelled. It raises `NotImplementedError` unconditionally and changes nothing.
- The revision identifiers and the revision chain (lines 13-16) are not modelled. Neither are the transaction, rollback and error propagation that the migration framework provides around `upgrade`.
- Artifact version ids are modelled as strings. Only their equality matters to the loop.
