/**
 The artifact tables of the state database: one row per content identifier and one row per
 reference. Every function below is one transaction of the store.

 SHA-256 is symbolic: an identifier is a constructor applied to the content, hence injective.
 */
module ArtifactRows {
  import opened Prelude

  datatype ArtifactId = Sha256(preimage: Bytes)

  /** A path below the artifact root. */
  datatype Path =
    | Stored(cls: string, id: ArtifactId)                // <class>/sha256/<2 hex>/<digest>
    | Incoming(cls: string, id: ArtifactId, stamp: nat)  // <class>/sha256/<2 hex>/.incoming-<random>
    | Foreign(top: string, rest: string)                 // anything the store did not name itself
  {
    /** The first component, which must be the artifact class of a registered file. */
    function Top(): string {
      match this
      case Stored(cls, _) => cls
      case Incoming(cls, _, _) => cls
      case Foreign(top, _) => top
    }
  }

  datatype Row = Row(
    cls: string,
    media: string,
    size: nat,
    path: Path,
    complete: bool,
    quarantined: bool,
    pinned: bool,
    retention: Option<int>)
  {
    predicate Live() { complete && !quarantined }
  }

  datatype Ref = Ref(id: ArtifactId, ownerType: string, ownerId: string)

  datatype Rows = Rows(artifacts: map<ArtifactId, Row>, refs: set<Ref>) {

    predicate Referenced(id: ArtifactId) {
      exists r :: r in refs && r.id == id
    }

    /** Pinned or referenced: the collector must leave it alone. */
    predicate Protected(id: ArtifactId) {
      Referenced(id) || (id in artifacts && artifacts[id].pinned)
    }

    predicate LiveRow(id: ArtifactId) {
      id in artifacts && artifacts[id].Live()
    }

    /** The constraints SQLite enforces: UNIQUE(relative_path) and the foreign key of references. */
    ghost predicate Constrained() {
      && (forall i, j :: i in artifacts && j in artifacts && artifacts[i].path == artifacts[j].path ==> i == j)
      && (forall r :: r in refs ==> r.id in artifacts)
    }
  }

  datatype RowError = MetadataConflict | ConstraintFailed | NoSuchArtifact | BecameIneligible

  /** register_artifact: insert a complete row, or check that an existing one agrees and only add the pin. */
  function Register(rows: Rows, id: ArtifactId, cls: string, media: string, size: nat, path: Path,
                    pinned: bool, retention: Option<int>): (r: Result<Rows, RowError>)
    ensures r.Ok? && rows.Constrained() ==> r.value.Constrained()
    ensures r.Ok? ==> r.value.LiveRow(id) && (pinned ==> r.value.Protected(id)) && r.value.refs == rows.refs
    ensures r.Ok? ==> forall i :: i != id ==> (i in r.value.artifacts <==> i in rows.artifacts)
    ensures r.Ok? ==> forall i :: i in rows.artifacts && i != id ==> r.value.artifacts[i] == rows.artifacts[i]
    ensures r.Ok? ==>
      var row := r.value.artifacts[id];
      && row.cls == cls && row.media == media && row.size == size && row.path == path
      && row.pinned == (pinned || (id in rows.artifacts && rows.artifacts[id].pinned))
      && row.retention == if id in rows.artifacts then rows.artifacts[id].retention else retention
    ensures r.Ok? <==> if id in rows.artifacts
                       then rows.LiveRow(id)
                         && (rows.artifacts[id].cls, rows.artifacts[id].media) == (cls, media)
                         && (rows.artifacts[id].size, rows.artifacts[id].path) == (size, path)
                       else forall i :: i in rows.artifacts ==> rows.artifacts[i].path != path
  {
    if id in rows.artifacts then
      var row := rows.artifacts[id];
      if row.cls != cls || row.media != media || row.size != size || row.path != path || !row.Live() then
        Err(MetadataConflict)
      else if pinned then
        Ok(rows.(artifacts := rows.artifacts[id := row.(pinned := true)]))
      else
        Ok(rows)
    else if exists i :: i in rows.artifacts && rows.artifacts[i].path == path then
      Err(ConstraintFailed)
    else
      Ok(rows.(artifacts := rows.artifacts[id := Row(cls, media, size, path, true, false, pinned, retention)]))
  }

  /** add_artifact_ref: INSERT OR IGNORE, which does not ignore a foreign key failure. */
  function AddRef(rows: Rows, ref: Ref): (r: Result<Rows, RowError>)
    ensures r.Ok? && rows.Constrained() ==> r.value.Constrained() && r.value.Protected(ref.id)
    ensures r.Ok? <==> ref.id in rows.artifacts
    ensures r.Ok? ==> r.value.artifacts == rows.artifacts && forall x ::
      x in r.value.refs <==> x in rows.refs || x == ref
  {
    if ref.id in rows.artifacts then Ok(rows.(refs := rows.refs + {ref})) else Err(ConstraintFailed)
  }

  /** quarantine_artifact: clear `complete`, set `quarantined`. */
  function Quarantine(rows: Rows, id: ArtifactId): (r: Result<Rows, RowError>)
    ensures r.Ok? && rows.Constrained() ==> r.value.Constrained() && !r.value.LiveRow(id)
    ensures r.Ok? <==> id in rows.artifacts
    ensures r.Ok? ==> r.value.refs == rows.refs && r.value.artifacts.Keys == rows.artifacts.Keys
    ensures r.Ok? ==> forall i :: i in rows.artifacts && i != id ==> r.value.artifacts[i] == rows.artifacts[i]
  {
    if id in rows.artifacts then
      Ok(rows.(artifacts := rows.artifacts[id := rows.artifacts[id].(complete := false, quarantined := true)]))
    else
      Err(NoSuchArtifact)
  }

  /** garbage_collectable: the WHERE clause of the candidate query. */
  predicate Collectable(rows: Rows, id: ArtifactId, now: int) {
    && rows.LiveRow(id)
    && !rows.Protected(id)
    && (rows.artifacts[id].retention.None? || rows.artifacts[id].retention.value <= now)
  }

  /** delete_artifact_record: the eligibility test is repeated inside the deleting statement. */
  function DeleteRow(rows: Rows, id: ArtifactId): (r: Result<Rows, RowError>)
    ensures r.Ok? ==> !rows.Protected(id) && id !in r.value.artifacts
    ensures r.Ok? <==> id in rows.artifacts && !rows.artifacts[id].pinned && forall x :: x in rows.refs ==> x.id != id
    ensures r.Ok? && rows.Constrained() ==> r.value.Constrained()
    ensures r.Ok? ==> r.value.refs == rows.refs
    ensures r.Ok? ==> r.value.artifacts == rows.artifacts - {id}
  {
    if id in rows.artifacts && !rows.Protected(id) then
      Ok(rows.(artifacts := rows.artifacts - {id}))
    else
      Err(BecameIneligible)
  }
}
