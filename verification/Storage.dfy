/**
 The two directories the artifact store owns, and what startup reconciliation makes of them.

 Names in quarantine carry a `time_ns` stamp; stamps are drawn from a counter, so they are distinct.
 */
module Storage {
  import opened Prelude
  import opened ArtifactRows

  /** `Regular(bytes, ours)`: `ours` says owner and permission bits are the store's own. */
  datatype Node = Regular(bytes: Bytes, ours: bool) | Irregular | Directory

  datatype QName = QName(reason: string, stamp: nat, base: Path)

  datatype Disk = Disk(root: map<Path, Node>, quarantine: map<QName, Node>, clock: nat)

  /** _verify_file on a file that exists. */
  predicate Verifies(node: Node, id: ArtifactId, size: nat) {
    node.Regular? && node.ours && |node.bytes| == size && Sha256(node.bytes) == id
  }

  predicate VerifiesAt(root: map<Path, Node>, p: Path, id: ArtifactId, size: nat) {
    p in root && Verifies(root[p], id, size)
  }

  /** A row whose file is where and what the row says. */
  predicate Intact(root: map<Path, Node>, id: ArtifactId, row: Row) {
    row.Live() && row.path.Top() == row.cls && VerifiesAt(root, row.path, id, row.size)
  }

  predicate IsFile(root: map<Path, Node>, p: Path) {
    p in root && root[p] != Directory
  }

  /** The file at `p` belongs to an intact row. */
  predicate Accounted(rows: Rows, root: map<Path, Node>, p: Path) {
    exists id :: id in rows.artifacts && rows.artifacts[id].path == p && Intact(root, id, rows.artifacts[id])
  }

  function Quarantined(row: Row): Row { row.(complete := false, quarantined := true) }

  /** The files reconciliation moves away. */
  function Strays(rows: Rows, root: map<Path, Node>): set<Path> {
    set p | p in root && IsFile(root, p) && !Accounted(rows, root, p)
  }

  predicate IsRegular(root: map<Path, Node>, p: Path) {
    p in root && root[p].Regular?
  }

  /**
   A row that is marked quarantined: live without an intact file, or not live but with a regular file in its place.
   */
  predicate Condemned(root: map<Path, Node>, id: ArtifactId, row: Row) {
    !Intact(root, id, row) && (row.Live() || IsRegular(root, row.path))
  }

  /** `moved` left the root for fresh quarantine names, one name each, nothing overwritten. */
  ghost predicate MovedAway(d: Disk, d': Disk, moved: set<Path>) {
    && d'.root == d.root - moved
    && d.clock <= d'.clock
    && (forall q :: q in d.quarantine ==> q in d'.quarantine && d'.quarantine[q] == d.quarantine[q])
    && (forall p :: p in moved ==> exists q :: q in d'.quarantine && q !in d.quarantine && q.base == p)
    && (forall q :: q in d'.quarantine && q !in d.quarantine ==>
          d.clock <= q.stamp < d'.clock && q.base in moved && q.base in d.root && d'.quarantine[q] == d.root[q.base])
    && (forall q, r ::
         q in d'.quarantine && r in d'.quarantine && q !in d.quarantine && r !in d.quarantine && q.base == r.base ==>
           q == r)
  }

  /** The whole effect of a successful reconciliation. */
  ghost predicate Reconciled(rows: Rows, d: Disk, rows': Rows, d': Disk) {
    && rows'.refs == rows.refs
    && rows'.artifacts.Keys == rows.artifacts.Keys
    && (forall id :: id in rows.artifacts ==>
          rows'.artifacts[id] == if Condemned(d.root, id, rows.artifacts[id]) then Quarantined(rows.artifacts[id])
                                 else rows.artifacts[id])
    && MovedAway(d, d', Strays(rows, d.root))
  }

  /** Live rows and files under the root correspond one to one, and every file has its row's bytes, size and class. */
  ghost predicate Consistent(rows: Rows, d: Disk) {
    && (forall id :: rows.LiveRow(id) ==>
          var row := rows.artifacts[id];
          VerifiesAt(d.root, row.path, id, row.size) && row.path.Top() == row.cls)
    && (forall p :: IsFile(d.root, p) ==> exists id :: rows.LiveRow(id) && rows.artifacts[id].path == p)
    && (forall i, j :: rows.LiveRow(i) && rows.LiveRow(j) && rows.artifacts[i].path == rows.artifacts[j].path ==>
         i == j)
  }

  /** Whatever state a crash left, reconciliation ends in a consistent one. */
  lemma ReconcileConsistent(rows: Rows, d: Disk, rows': Rows, d': Disk)
    requires rows.Constrained() && Reconciled(rows, d, rows', d')
    ensures Consistent(rows', d') && rows'.Constrained()
  {
    forall id | rows'.LiveRow(id)
      ensures Intact(d'.root, id, rows'.artifacts[id])
    {
      assert Intact(d.root, id, rows.artifacts[id]);
      assert Accounted(rows, d.root, rows.artifacts[id].path);
    }
    forall p | IsFile(d'.root, p)
      ensures exists id :: rows'.LiveRow(id) && rows'.artifacts[id].path == p
    {
      assert p !in Strays(rows, d.root);
      var id :| id in rows.artifacts && rows.artifacts[id].path == p && Intact(d.root, id, rows.artifacts[id]);
      assert rows'.LiveRow(id);
    }
  }

  lemma IntactStays(rows: Rows, d: Disk, rows': Rows, d': Disk, id: ArtifactId)
    requires Reconciled(rows, d, rows', d') && id in rows.artifacts && Intact(d.root, id, rows.artifacts[id])
    ensures rows'.artifacts[id] == rows.artifacts[id] && Intact(d'.root, id, rows'.artifacts[id])
  {
    assert Accounted(rows, d.root, rows.artifacts[id].path);
  }

  lemma NothingCondemned(rows: Rows, d: Disk, rows': Rows, d': Disk, id: ArtifactId)
    requires rows.Constrained() && Reconciled(rows, d, rows', d') && id in rows'.artifacts
    ensures !Condemned(d'.root, id, rows'.artifacts[id])
  {
    if Intact(d.root, id, rows.artifacts[id]) {
      IntactStays(rows, d, rows', d', id);
    }
  }

  lemma NoStrays(rows: Rows, d: Disk, rows': Rows, d': Disk)
    requires Reconciled(rows, d, rows', d')
    ensures Strays(rows', d'.root) == {}
  {
    forall p | IsFile(d'.root, p)
      ensures Accounted(rows', d'.root, p)
    {
      assert p !in Strays(rows, d.root);
      var id :| id in rows.artifacts && rows.artifacts[id].path == p && Intact(d.root, id, rows.artifacts[id]);
      IntactStays(rows, d, rows', d', id);
    }
  }

  /** Reconciling a reconciled store changes nothing. */
  lemma ReconcileIdempotent(rows: Rows, d: Disk, rows': Rows, d': Disk, rows'': Rows, d'': Disk)
    requires rows.Constrained() && Reconciled(rows, d, rows', d') && Reconciled(rows', d', rows'', d'')
    ensures rows'' == rows' && d''.root == d'.root && d''.quarantine == d'.quarantine
  {
    hide Condemned, Strays;
    forall id | id in rows'.artifacts
      ensures rows''.artifacts[id] == rows'.artifacts[id]
    {
      NothingCondemned(rows, d, rows', d', id);
    }
    NoStrays(rows, d, rows', d');
    assert d''.root == d'.root;
    assert d''.quarantine == d'.quarantine;
  }

  /** No byte is lost: every file of the old root is still in the root or in quarantine under a name of its own. */
  lemma ReconcileConserves(rows: Rows, d: Disk, rows': Rows, d': Disk, p: Path)
    requires Reconciled(rows, d, rows', d') && p in d.root
    ensures if p in d'.root then d'.root[p] == d.root[p]
            else exists q :: q in d'.quarantine && q !in d.quarantine && q.base == p && d'.quarantine[q] == d.root[p]
    ensures p in d'.root <==> d.root[p] == Directory || Accounted(rows, d.root, p)
  {
    if p !in d'.root {
      assert p in Strays(rows, d.root);
      var q :| q in d'.quarantine && q !in d.quarantine && q.base == p;
    }
  }

  // ---------------------------------------------------------------- reconciliation, path by path

  /** The regular file at the row's own path is not what the row says. */
  predicate Misfiled(root: map<Path, Node>, id: ArtifactId, row: Row) {
    IsRegular(root, row.path) && !Intact(root, id, row)
  }

  ghost predicate RowsWalked(rows0: Rows, root0: map<Path, Node>, done: set<Path>, rows: Rows) {
    && rows.refs == rows0.refs
    && rows.artifacts.Keys == rows0.artifacts.Keys
    && (forall id :: id in rows0.artifacts ==>
          rows.artifacts[id] == if rows0.artifacts[id].path in done && Misfiled(root0, id, rows0.artifacts[id])
                                then Quarantined(rows0.artifacts[id]) else rows0.artifacts[id])
  }

  ghost predicate SeenWalked(rows0: Rows, root0: map<Path, Node>, done: set<Path>, seen: set<ArtifactId>) {
    forall id ::
      id in seen
      <==> id in rows0.artifacts && rows0.artifacts[id].path in done && Intact(root0, id, rows0.artifacts[id])
  }

  /** After the walk has visited the paths in `done`. */
  ghost predicate Walked(rows0: Rows, d0: Disk, done: set<Path>, rows: Rows, d: Disk, seen: set<ArtifactId>) {
    && RowsWalked(rows0, d0.root, done, rows)
    && SeenWalked(rows0, d0.root, done, seen)
    && MovedAway(d0, d, Strays(rows0, d0.root) * done)
  }

  function MoveOne(d: Disk, p: Path, reason: string): Disk
    requires p in d.root
  {
    Disk(d.root - {p}, d.quarantine[QName(reason, d.clock, p) := d.root[p]], d.clock + 1)
  }

  ghost predicate StampsPast(d: Disk) {
    forall q :: q in d.quarantine ==> q.stamp < d.clock
  }

  lemma MoveOneMore(d0: Disk, d: Disk, moved: set<Path>, p: Path, reason: string)
    requires MovedAway(d0, d, moved) && p in d.root && p !in moved && StampsPast(d)
    ensures MovedAway(d0, MoveOne(d, p, reason), moved + {p})
  {
    var q := QName(reason, d.clock, p);
    var d' := MoveOne(d, p, reason);
    assert d'.root == d0.root - (moved + {p});
    assert q !in d.quarantine && q in d'.quarantine;
    forall r | r in moved + {p}
      ensures exists n :: n in d'.quarantine && n !in d0.quarantine && n.base == r
    {
      if r in moved {
        var n :| n in d.quarantine && n !in d0.quarantine && n.base == r;
        assert n in d'.quarantine;
      } else {
        assert q in d'.quarantine && q !in d0.quarantine && q.base == r;
      }
    }
  }

  lemma WalkStart(rows: Rows, d: Disk)
    ensures Walked(rows, d, {}, rows, d, {})
  {
    assert Strays(rows, d.root) * {} == {} && d.root - {} == d.root;
  }

  /** A directory, or a file whose record is intact, stays. */
  lemma WalkKeep(rows0: Rows, d0: Disk, done: set<Path>, rows: Rows, d: Disk, seen: set<ArtifactId>, p: Path,
      seen': set<ArtifactId>)
    requires rows0.Constrained() && Walked(rows0, d0, done, rows, d, seen) && p in d0.root && p !in done
    requires || (d0.root[p] == Directory && seen' == seen)
             || exists id ::
               id in rows0.artifacts && rows0.artifacts[id].path == p && Intact(d0.root, id, rows0.artifacts[id])
                 && seen' == seen + {id}
    ensures Walked(rows0, d0, done + {p}, rows, d, seen')
  {
    assert Strays(rows0, d0.root) * (done + {p}) == Strays(rows0, d0.root) * done;
  }

  /** A file without a record, or one that is not regular, is moved away; no record changes yet. */
  lemma WalkOrphan(rows0: Rows, d0: Disk, done: set<Path>, rows: Rows, d: Disk, seen: set<ArtifactId>, p: Path)
    requires Walked(rows0, d0, done, rows, d, seen) && IsFile(d0.root, p) && p !in done && StampsPast(d)
    requires !IsRegular(d0.root, p) || forall id :: id in rows0.artifacts ==> rows0.artifacts[id].path != p
    ensures p in d.root && Walked(rows0, d0, done + {p}, rows, MoveOne(d, p, "orphan"), seen)
  {
    assert p in Strays(rows0, d0.root);
    assert Strays(rows0, d0.root) * (done + {p}) == Strays(rows0, d0.root) * done + {p};
    MoveOneMore(d0, d, Strays(rows0, d0.root) * done, p, "orphan");
  }

  lemma MisfiledIsStray(rows: Rows, root: map<Path, Node>, id: ArtifactId)
    requires rows.Constrained() && id in rows.artifacts && Misfiled(root, id, rows.artifacts[id])
    ensures rows.artifacts[id].path in Strays(rows, root)
  {
  }

  lemma MisfiledRow(rows0: Rows, root0: map<Path, Node>, done: set<Path>, rows: Rows, id: ArtifactId, rows': Rows)
    requires rows0.Constrained() && RowsWalked(rows0, root0, done, rows) && id in rows0.artifacts
    requires Misfiled(root0, id, rows0.artifacts[id]) && rows0.artifacts[id].path !in done
             && Quarantine(rows, id) == Ok(rows')
    ensures RowsWalked(rows0, root0, done + {rows0.artifacts[id].path}, rows')
  {
    hide Misfiled;
  }

  lemma StillThere(d0: Disk, d: Disk, moved: set<Path>, p: Path)
    requires MovedAway(d0, d, moved) && p in d0.root && p !in moved
    ensures p in d.root
  {
  }

  /** A regular file that is not what its record says is moved away and the record quarantined. */
  lemma WalkMisfiled(rows0: Rows, d0: Disk, done: set<Path>, rows: Rows, d: Disk, seen: set<ArtifactId>, p: Path,
                     id: ArtifactId, rows': Rows, reason: string)
    requires rows0.Constrained() && Walked(rows0, d0, done, rows, d, seen) && IsFile(d0.root, p) && p !in done
             && StampsPast(d)
    requires id in rows0.artifacts && rows0.artifacts[id].path == p && Misfiled(d0.root, id, rows0.artifacts[id])
    requires Quarantine(rows, id) == Ok(rows')
    ensures p in d.root && Walked(rows0, d0, done + {p}, rows', MoveOne(d, p, reason), seen)
  {
    hide MovedAway, RowsWalked, Strays, StampsPast;
    MisfiledIsStray(rows0, d0.root, id);
    StillThere(d0, d, Strays(rows0, d0.root) * done, p);
    assert Strays(rows0, d0.root) * (done + {p}) == Strays(rows0, d0.root) * done + {p};
    MoveOneMore(d0, d, Strays(rows0, d0.root) * done, p, reason);
    MisfiledRow(rows0, d0.root, done, rows, id, rows');
    assert SeenWalked(rows0, d0.root, done + {p}, seen);
  }

  /** The walk leaves unseen exactly the live rows whose file is missing; quarantining those completes it. */
  lemma WalkEnds(rows0: Rows, d0: Disk, walked: Rows, d: Disk, seen: set<ArtifactId>, rows': Rows)
    requires Walked(rows0, d0, d0.root.Keys, walked, d, seen)
    requires rows'.refs == walked.refs && rows'.artifacts.Keys == walked.artifacts.Keys
    requires forall id :: id in walked.artifacts ==>
      rows'.artifacts[id] == if walked.artifacts[id].Live() && id !in seen then Quarantined(walked.artifacts[id])
        else walked.artifacts[id]
    ensures Reconciled(rows0, d0, rows', d)
  {
    assert Strays(rows0, d0.root) * d0.root.Keys == Strays(rows0, d0.root);
    hide MovedAway, Strays;
    forall id | id in rows0.artifacts
      ensures rows'.artifacts[id] == if Condemned(d0.root, id, rows0.artifacts[id])
        then Quarantined(rows0.artifacts[id])
                                     else rows0.artifacts[id]
    {
      assert id in walked.artifacts;
    }
  }
}
