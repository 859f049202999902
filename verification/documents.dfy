/** Document metadata: `insert_document_record`, `delete_document_record` and
    `get_all_documents`. */
module Documents {
  import opened Wrappers
  import opened Seqs
  import opened Ordering
  import opened Schema

  /** Outcome of `insert_document_record`: the new database and `cursor.lastrowid`. */
  datatype Inserted = Inserted(db: Db, fileId: nat)

  /** Outcome of `delete_document_record`: the new database and the returned flag. */
  datatype Deleted = Deleted(db: Db, ok: bool)

  /** `insert_document_record`: appends one row with the next AUTOINCREMENT id,
      stamped with the clock advanced by `tick`, and returns that id. */
  function InsertDocumentRecord(db: Db, filename: string, tick: nat): (r: Result<Inserted, StoreError>)
    ensures r.Failure? <==> db.docSeq >= MaxRowId
    ensures r.Success? ==>
      && r.value.fileId > db.docSeq
      && r.value.db.docSeq == r.value.fileId
      && r.value.db.docs == db.docs + [DocRow(r.value.fileId, filename, r.value.db.clock)]
      && r.value.db.logs == db.logs
      && r.value.db.logSeq == db.logSeq
      && db.clock <= r.value.db.clock
    ensures Valid(db) && r.Success? ==>
      && Valid(r.value.db)
      && forall i :: 0 <= i < |db.docs| ==> db.docs[i].id < r.value.fileId
  {
    if db.docSeq >= MaxRowId then Failure(Full)
    else
      var now := db.clock + tick;
      var id := db.docSeq + 1;
      Success(Inserted(db.(docs := db.docs + [DocRow(id, filename, now)], docSeq := id, clock := now), id))
  }

  /** The `WHERE id != ?` complement of the delete statement, as a filter argument. */
  function KeepOthers(fileId: int): (keep: DocRow -> bool) {
    (d: DocRow) => d.id != fileId
  }

  /** `delete_document_record`: an id outside the signed 64-bit range cannot
      be bound and raises before the statement runs; any other id removes
      every row whose id it is and reports success whether or not one existed. */
  function DeleteDocumentRecord(db: Db, fileId: int): (r: Result<Deleted, StoreError>)
    ensures r.Failure? <==> !FitsInteger(fileId)
    ensures r.Failure? ==> r.error == Overflow
    ensures r.Success? ==>
      && r.value.ok
      && (forall d :: d in r.value.db.docs <==> d in db.docs && d.id != fileId)
      && |r.value.db.docs| <= |db.docs|
      && r.value.db.logs == db.logs
      && r.value.db.logSeq == db.logSeq && r.value.db.docSeq == db.docSeq && r.value.db.clock == db.clock
      && ((forall d :: d in db.docs ==> d.id != fileId) ==> r.value.db == db)
      && (Valid(db) ==> Valid(r.value.db))
  {
    if !FitsInteger(fileId) then Failure(Overflow)
    else
      DeleteFrame(db, fileId);
      Success(Deleted(db.(docs := Filter(db.docs, KeepOthers(fileId))), true))
  }

  /** Removing rows by id keeps the table's insertion-order invariant, and
      removing an absent id removes nothing. */
  lemma DeleteFrame(db: Db, fileId: int)
    ensures (forall d :: d in db.docs ==> d.id != fileId) ==> Filter(db.docs, KeepOthers(fileId)) == db.docs
    ensures Valid(db) ==> Valid(db.(docs := Filter(db.docs, KeepOthers(fileId))))
  {
    var db' := db.(docs := Filter(db.docs, KeepOthers(fileId)));
    if forall d :: d in db.docs ==> d.id != fileId {
      FilterKeepsAll(db.docs, KeepOthers(fileId));
    }
    if Valid(db) {
      FilterPairwise(db.docs, KeepOthers(fileId), DocBefore);
      assert DocsIssued(db') by {
        forall i | 0 <= i < |db'.docs|
          ensures 1 <= db'.docs[i].id <= db'.docSeq && db'.docs[i].uploadTimestamp <= db'.clock
        {
          assert db'.docs[i] in db.docs;
        }
      }
    }
  }

  /** Deleting the same id a second time succeeds again and leaves the
      database as the first deletion left it. */
  lemma DeleteIdempotent(db: Db, fileId: int)
    ensures var once := DeleteDocumentRecord(db, fileId);
      once.Success? ==> DeleteDocumentRecord(once.value.db, fileId) == once
  {
  }

  /** Sort key of `ORDER BY upload_timestamp DESC`, ties broken by descending
      id: negating both components turns the descending order into an
      ascending one. */
  function DocDescKey(d: DocRow): (k: Key) {
    Key(-(d.uploadTimestamp as int), -(d.id as int))
  }

  /** `get_all_documents`: the rows newest first. Rows are stored in insertion
      order, so the newest-first order is the stored order read backwards. */
  function GetAllDocuments(db: Db): (listing: seq<DocRow>)
    ensures multiset(listing) == multiset(db.docs)
    ensures Valid(db) ==> StrictlyAscending(listing, DocDescKey)
    ensures Valid(db) ==>
      forall i, j :: 0 <= i < j < |listing| ==> listing[i].uploadTimestamp >= listing[j].uploadTimestamp
  {
    ReverseNewestFirst(db);
    Reverse(db.docs)
  }

  /** Read backwards, a table in insertion order is newest first. */
  lemma ReverseNewestFirst(db: Db)
    ensures Valid(db) ==> Pairwise(Reverse(db.docs), (a: DocRow, b: DocRow) => DocBefore(b, a))
  {
  }

  /** Any arrangement of the document rows strictly ordered newest first by
      (upload_timestamp, id) is the listing the model returns. */
  lemma ListingUnique(db: Db, other: seq<DocRow>)
    requires Valid(db)
    requires StrictlyAscending(other, DocDescKey)
    requires forall d :: d in other <==> d in db.docs
    ensures other == GetAllDocuments(db)
  {
    var listing := GetAllDocuments(db);
    forall d
      ensures d in listing <==> d in db.docs
    {
      assert d in listing <==> d in multiset(listing);
      assert d in db.docs <==> d in multiset(db.docs);
    }
    AscendingUnique(other, listing, DocDescKey);
  }

  /** After an insert, the listing holds exactly one row with the new id, and
      that row carries the given filename. */
  lemma InsertedListedOnce(db: Db, filename: string, tick: nat)
    requires Valid(db)
    requires db.docSeq < MaxRowId
    ensures var ins := InsertDocumentRecord(db, filename, tick).value;
      var listing := GetAllDocuments(ins.db);
      && (exists k :: 0 <= k < |listing| && listing[k].id == ins.fileId && listing[k].filename == filename)
      && forall j, k ::
           0 <= j < |listing| && 0 <= k < |listing| && listing[j].id == ins.fileId && listing[k].id == ins.fileId
           ==> j == k
  {
    var ins := InsertDocumentRecord(db, filename, tick).value;
    var listing := GetAllDocuments(ins.db);
    var row := DocRow(ins.fileId, filename, ins.db.clock);
    assert ins.db.docs[|db.docs|] == row;
    assert listing[0] == row;
  }
}
