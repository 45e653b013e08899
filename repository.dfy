/** The repository: the `files` table and the large objects as the state of
    an object, and its operations as methods that change that state step by
    step inside a transaction that a failing step rolls back. */
module Repository {
  import opened Wrappers
  import opened Guids
  import opened Paths
  import opened Table

  class DbFileRepository {
    /** The `files` table, in the order the database returns its rows. */
    var rows: seq<Row>
    /** The large objects, by object id. */
    var blobs: map<ObjId, seq<byte>>

    function State(): Store
      reads this
    {
      Store(rows, blobs)
    }

    /** A repository over an existing database. */
    constructor (initial: Store)
      requires Valid(initial)
      ensures State() == initial
    {
      rows := initial.rows;
      blobs := initial.blobs;
    }

    /** The record at a path: null or blank paths are refused; otherwise the
        record is returned when exactly one row has the normalised path. */
    function Find(filepath: Option<string>): (r: Result<Option<Row>>)
      reads this
      ensures r.Err? <==> IsNullOrWhiteSpace(filepath)
      ensures r.Err? ==> r.error == InvalidArgument
      ensures r.Ok? ==> r.value == Lookup(rows, Normalize(filepath).value)
      ensures r.Ok? && r.value.Some? ==>
        exists i :: UniqueAt(rows, Normalize(filepath).value, i) && rows[i] == r.value.value
      ensures r.Ok? && (exists i :: UniqueAt(rows, Normalize(filepath).value, i)) ==> r.value.Some?
    {
      if IsNullOrWhiteSpace(filepath) then Err(InvalidArgument)
      else
        var path := Normalize(filepath).value;
        LookupIsUniqueMatch(rows, path);
        Ok(Lookup(rows, path))
    }

    /** The listing: the rows that pass the temporary-file and path filters,
        in table order, then the paging window. A negative skip or limit is
        refused by the database. */
    method FindAll(startsWithPath: Option<string>, includeTempFiles: bool, skip: Option<int>, limit: Option<int>)
      returns (r: Result<seq<Row>>)
      ensures r.Err? <==> (skip.Some? && skip.value < 0) || (limit.Some? && limit.value < 0)
      ensures r.Ok? ==>
        r.value == Page(BranchQuery(rows, StartsWithFilter(startsWithPath), includeTempFiles), PagingOf(skip, limit).value)
    {
      var startsWith := StartsWithFilter(startsWithPath);
      var paging := PagingOf(skip, limit);
      if paging.Err? {
        return Err(paging.error);
      }
      var files := ScanPage(startsWith, includeTempFiles, paging.value);
      BranchQueryIsListing(rows, startsWith, includeTempFiles);
      r := Ok(files);
    }

    /** The `foreach` of `FindAll` over the rows the query returns: count
        the qualifying rows, and keep those inside the paging window. */
    method ScanPage(startsWith: Option<string>, includeTempFiles: bool, p: Paging) returns (files: seq<Row>)
      ensures files == Page(Listing(rows, startsWith, includeTempFiles), p)
    {
      var table := rows;
      files := [];
      var matched := 0;
      for i := 0 to |table|
        invariant matched == |Listing(table[..i], startsWith, includeTempFiles)|
        invariant files == Page(Listing(table[..i], startsWith, includeTempFiles), p)
      {
        ScanStep(table, i, startsWith, includeTempFiles, p, matched, files);
        if Listed(table[i], startsWith, includeTempFiles) {
          if matched >= p.offset && (p.limit.None? || |files| < p.limit.value) {
            files := files + [table[i]];
          }
          matched := matched + 1;
        }
      }
      assert table[..|table|] == table;
    }

    /** Stores a file. A blank path is refused and an existing one reported;
        otherwise one transaction (`CreateTransaction`) allocates and fills a
        large object and inserts a row. The row's path is the text of a fresh Guid, not the given path, and
        the closing `Find` of the given path therefore returns null, whether
        the transaction committed or not: the failure is swallowed. */
    method Create(filepath: Option<string>, buffer: Option<seq<byte>>, createdOn: Option<Timestamp>,
                  createdBy: Option<Guid>, now: Timestamp, newId: Guid, objectId: ObjId, pathGuid: Guid,
                  fault: Fault)
      returns (r: Result<Option<Row>>)
      requires Valid(State()) && Fresh(State(), newId, objectId)
      modifies this
      ensures Valid(State())
      ensures IsNullOrWhiteSpace(filepath) ==> r == Err(InvalidArgument)
      ensures !IsNullOrWhiteSpace(filepath) ==>
        r == if Lookup(old(rows), Normalize(filepath).value).Some? then Err(AlreadyExists) else Ok(None)
      ensures r.Err? || buffer.None? || Interrupts(fault, 4) ==> State() == old(State())
      ensures r.Ok? && buffer.Some? && !Interrupts(fault, 4) ==>
        State() == Created(old(State()),
                           NewRow(newId, objectId, pathGuid, if createdOn.Some? then createdOn.value else now, createdBy),
                           buffer.value)
    {
      if IsNullOrWhiteSpace(filepath) {
        return Err(InvalidArgument);
      }
      var path := Normalize(filepath).value;
      NormalizeIdempotent(filepath);
      if Find(Some(path)).value.Some? {
        return Err(AlreadyExists);
      }
      var date := if createdOn.Some? then createdOn.value else now;
      var row := NewRow(newId, objectId, pathGuid, date, createdBy);
      CreateTransaction(row, buffer, fault);
      assert Lookup(rows, path) == None by {
        NewRowInvisible(old(rows), row, pathGuid, path);
      }
      r := Ok(Find(Some(path)).value);
    }

    /** The transaction of `Create`: allocate a large object, write the
        contents into it and insert the row; a null buffer fails the write,
        and a failing step rolls all of it back. */
    method CreateTransaction(row: Row, buffer: Option<seq<byte>>, fault: Fault)
      requires Valid(State()) && Fresh(State(), row.id, row.objectId)
      modifies this
      ensures Valid(State())
      ensures State() == if buffer.None? || Interrupts(fault, 4) then old(State())
                         else Created(old(State()), row, buffer.value)
    {
      var savedRows, savedBlobs := rows, blobs;
      var failed := true;
      if fault != FailAt(0) {
        blobs := blobs[row.objectId := []];
        if fault != FailAt(1) && buffer.Some? {
          blobs := blobs[row.objectId := buffer.value];
          assert blobs == savedBlobs[row.objectId := buffer.value];
          if fault != FailAt(2) {
            rows := rows + [row];
            failed := fault == FailAt(3);
          }
        }
      }
      assert failed <==> buffer.None? || Interrupts(fault, 4);
      if failed {
        rows, blobs := savedRows, savedBlobs;
      } else {
        CreatedValid(Store(savedRows, savedBlobs), row, buffer.value);
      }
    }

    /** Meant to set the modification date of the file at a path: a blank
        path is refused and a missing file reported, but the update is
        keyed on a freshly made Guid, matches no row, and the record comes
        back as it was. */
    method UpdateModificationDate(filepath: Option<string>, modificationDate: Timestamp, strayId: Guid, fault: Fault)
      returns (r: Result<Option<Row>>)
      requires forall x :: x in rows ==> x.id != strayId
      modifies this
      ensures State() == old(State())
      ensures IsNullOrWhiteSpace(filepath) ==> r == Err(InvalidArgument)
      ensures !IsNullOrWhiteSpace(filepath) ==>
        var found := Lookup(old(rows), Normalize(filepath).value);
        r == if found.None? then Err(NotFound) else if fault == FailAt(0) then Err(StorageFailure) else Ok(found)
    {
      if IsNullOrWhiteSpace(filepath) {
        return Err(InvalidArgument);
      }
      var path := Normalize(filepath).value;
      NormalizeIdempotent(filepath);
      var file := Find(Some(path)).value;
      if file.None? {
        return Err(NotFound);
      }
      if fault == FailAt(0) {
        return Err(StorageFailure);
      }
      UpdateOfUnknownIdChangesNothing(rows, strayId, modificationDate, path);
      rows := SetModifiedOn(rows, strayId, modificationDate);
      r := Ok(Find(Some(path)).value);
    }

    /** Deletes the file at a path: nothing happens when `Find` finds no
        record; otherwise its large object is unlinked and its row deleted,
        and a failing step rolls both back and is reported. */
    method Delete(filepath: Option<string>, fault: Fault) returns (r: Result<()>)
      requires Valid(State())
      modifies this
      ensures Valid(State())
      ensures IsNullOrWhiteSpace(filepath) ==> r == Err(InvalidArgument)
      ensures !IsNullOrWhiteSpace(filepath) ==>
        r == if Lookup(old(rows), Normalize(filepath).value).Some? && Interrupts(fault, 3)
             then Err(StorageFailure) else Ok(())
      ensures r.Ok? ==> State() == DeleteEffect(old(State()), Normalize(filepath).value)
      ensures r.Err? ==> State() == old(State())
    {
      if IsNullOrWhiteSpace(filepath) {
        return Err(InvalidArgument);
      }
      var path := Normalize(filepath).value;
      NormalizeIdempotent(filepath);
      var file := Find(Some(path)).value;
      if file.None? {
        return Ok(());
      }
      var f := file.value;
      DeleteEffectFacts(State(), path);
      var savedRows, savedBlobs := rows, blobs;
      r := Ok(());
      if fault == FailAt(0) {
        r := Err(StorageFailure);
      } else {
        blobs := blobs - {f.objectId};
        if fault == FailAt(1) {
          r := Err(StorageFailure);
        } else {
          rows := RemoveId(rows, f.id);
          if fault == FailAt(2) {
            r := Err(StorageFailure);
          }
        }
      }
      if r.Err? {
        rows, blobs := savedRows, savedBlobs;
      }
    }

    /** Copies a file: both paths must be non-blank, the source must exist
        and the destination must not, unless `overwrite` deletes it first.
        The rest runs in one transaction (`CopyTransaction`). */
    method Copy(sourceFilepath: Option<string>, destinationFilepath: Option<string>, overwrite: bool,
                deleteFault: Fault, fault: Fault, createFault: Fault,
                now: Timestamp, newId: Guid, objectId: ObjId, pathGuid: Guid)
      returns (r: Result<Option<Row>>)
      requires Valid(State()) && Fresh(State(), newId, objectId)
      modifies this
      ensures Valid(State())
      ensures IsNullOrWhiteSpace(sourceFilepath) || IsNullOrWhiteSpace(destinationFilepath) ==> r == Err(InvalidArgument)
      ensures !IsNullOrWhiteSpace(sourceFilepath) && !IsNullOrWhiteSpace(destinationFilepath) ==>
        var src := Lookup(old(rows), Normalize(sourceFilepath).value);
        var dst := Normalize(destinationFilepath).value;
        var existing := Lookup(old(rows), dst);
        r == if src.None? then Err(NotFound)
             else if existing.Some? && !overwrite then Err(AlreadyExists)
             else if (existing.Some? && Interrupts(deleteFault, 3)) || Interrupts(fault, 2)
                     || src.value.objectId !in DeleteEffect(old(State()), dst).blobs
             then Err(StorageFailure)
             else Ok(None)
      ensures r.Err? ==> State() == old(State())
      ensures r.Ok? ==>
        var src := Lookup(old(rows), Normalize(sourceFilepath).value).value;
        var mid := DeleteEffect(old(State()), Normalize(destinationFilepath).value);
        State() == if Interrupts(createFault, 4) then mid
                   else Created(mid, NewRow(newId, objectId, pathGuid, src.createdOn, src.createdBy), mid.blobs[src.objectId])
      ensures r.Ok? ==>
        var src := Lookup(old(rows), Normalize(sourceFilepath).value).value;
        && src in rows && blobs[src.objectId] == old(blobs)[src.objectId]
        && Lookup(rows, Normalize(destinationFilepath).value) == None
    {
      if IsNullOrWhiteSpace(sourceFilepath) || IsNullOrWhiteSpace(destinationFilepath) {
        return Err(InvalidArgument);
      }
      var srcPath := Normalize(sourceFilepath).value;
      var dstPath := Normalize(destinationFilepath).value;
      NormalizeIdempotent(sourceFilepath);
      NormalizeIdempotent(destinationFilepath);
      var srcFile := Find(Some(srcPath)).value;
      var destFile := Find(Some(dstPath)).value;
      if srcFile.None? {
        return Err(NotFound);
      }
      if destFile.Some? && !overwrite {
        return Err(AlreadyExists);
      }
      LookupFound(rows, srcPath, srcFile.value);
      r := CopyTransaction(srcFile.value, dstPath, destFile, deleteFault, fault, createFault,
                           now, newId, objectId, pathGuid);
    }

    /** The transaction of `Copy`: delete the file found at the destination,
        if any, read the source's contents and hand them to `Create`, which
        stores them under a Guid's text and returns null; a failing step
        rolls all of it back. */
    method CopyTransaction(src: Row, dstPath: string, destFile: Option<Row>,
                           deleteFault: Fault, fault: Fault, createFault: Fault,
                           now: Timestamp, newId: Guid, objectId: ObjId, pathGuid: Guid)
      returns (r: Result<Option<Row>>)
      requires Valid(State()) && Fresh(State(), newId, objectId) && src in rows
      requires Normalize(Some(dstPath)) == Ok(dstPath) && destFile == Lookup(rows, dstPath)
      modifies this
      ensures Valid(State())
      ensures r == if (destFile.Some? && Interrupts(deleteFault, 3)) || Interrupts(fault, 2)
                      || src.objectId !in DeleteEffect(old(State()), dstPath).blobs
                   then Err(StorageFailure)
                   else Ok(None)
      ensures r.Err? ==> State() == old(State())
      ensures r.Ok? ==>
        var mid := DeleteEffect(old(State()), dstPath);
        State() == if Interrupts(createFault, 4) then mid
                   else Created(mid, NewRow(newId, objectId, pathGuid, src.createdOn, src.createdBy), mid.blobs[src.objectId])
      ensures r.Ok? ==>
        && src in rows && blobs[src.objectId] == old(blobs)[src.objectId]
        && Lookup(rows, dstPath) == None
    {
      ghost var s0 := State();
      var savedRows, savedBlobs := rows, blobs;
      ghost var mid := DeleteEffect(s0, dstPath);
      if destFile.Some? {
        assert destFile.value.filepath == dstPath by { LookupFound(rows, dstPath, destFile.value); }
        var deleted := Delete(Some(destFile.value.filepath), deleteFault);
        if deleted.Err? {
          return Err(deleted.error);
        }
      }
      assert State() == mid;
      if src.objectId !in blobs {
        rows, blobs := savedRows, savedBlobs;
        assert State() == s0;
        return Err(StorageFailure);
      }
      var row := NewRow(newId, objectId, pathGuid, src.createdOn, src.createdBy);
      assert Valid(mid) && Fresh(mid, newId, objectId) && Lookup(mid.rows, dstPath) == None by {
        CopyOutcome(s0, dstPath, src, row, pathGuid);
      }
      r := CopyInto(src, dstPath, fault, createFault, now, newId, objectId, pathGuid);
      if r.Err? {
        rows, blobs := savedRows, savedBlobs;
        assert State() == s0;
        return;
      }
      assert src in rows && blobs[src.objectId] == s0.blobs[src.objectId] && Lookup(rows, dstPath) == None by {
        CopyOutcome(s0, dstPath, src, row, pathGuid);
      }
    }

    /** The rest of `Copy`'s transaction once the destination is free: read
        the source's contents and hand them to `Create`, then commit; a
        failing step rolls back what this part did. */
    method CopyInto(src: Row, dstPath: string, fault: Fault, createFault: Fault,
                    now: Timestamp, newId: Guid, objectId: ObjId, pathGuid: Guid)
      returns (r: Result<Option<Row>>)
      requires Valid(State()) && Fresh(State(), newId, objectId) && src.objectId in blobs
      requires Normalize(Some(dstPath)) == Ok(dstPath) && Lookup(rows, dstPath) == None
      modifies this
      ensures Valid(State())
      ensures r == if Interrupts(fault, 2) then Err(StorageFailure) else Ok(None)
      ensures r.Err? ==> State() == old(State())
      ensures r.Ok? ==>
        State() == if Interrupts(createFault, 4) then old(State())
                   else Created(old(State()), NewRow(newId, objectId, pathGuid, src.createdOn, src.createdBy),
                                old(blobs)[src.objectId])
    {
      if fault == FailAt(0) {
        return Err(StorageFailure);
      }
      var savedRows, savedBlobs := rows, blobs;
      var newFile := Create(Some(dstPath), Some(blobs[src.objectId]), Some(src.createdOn), src.createdBy,
                            now, newId, objectId, pathGuid, createFault);
      assert newFile == Ok(None);
      if fault == FailAt(1) {
        rows, blobs := savedRows, savedBlobs;
        return Err(StorageFailure);
      }
      r := newFile;
    }

    /** Moves a file: both paths must be non-blank, the source must exist
        and the destination must not, unless `overwrite` deletes it first.
        The rest runs in one transaction (`MoveTransaction`), and the file
        is then looked up at its new path. */
    method Move(sourceFilepath: Option<string>, destinationFilepath: Option<string>, overwrite: bool,
                deleteFault: Fault, fault: Fault)
      returns (r: Result<Option<Row>>)
      requires Valid(State())
      modifies this
      ensures Valid(State())
      ensures IsNullOrWhiteSpace(sourceFilepath) || IsNullOrWhiteSpace(destinationFilepath) ==> r == Err(InvalidArgument)
      ensures !IsNullOrWhiteSpace(sourceFilepath) && !IsNullOrWhiteSpace(destinationFilepath) ==>
        var src := Lookup(old(rows), Normalize(sourceFilepath).value);
        var dst := Normalize(destinationFilepath).value;
        var existing := Lookup(old(rows), dst);
        r == if src.None? then Err(NotFound)
             else if existing.Some? && !overwrite then Err(AlreadyExists)
             else if (existing.Some? && Interrupts(deleteFault, 3)) || Interrupts(fault, 2) then Err(StorageFailure)
             else Ok(Lookup(rows, dst))
      ensures r.Err? ==> State() == old(State())
      ensures r.Ok? ==>
        var src := Lookup(old(rows), Normalize(sourceFilepath).value).value;
        State() == Moved(DeleteEffect(old(State()), Normalize(destinationFilepath).value), src.id,
                         Normalize(destinationFilepath).value)
      ensures r.Ok? && PathsDistinct(old(rows)) && Normalize(sourceFilepath) != Normalize(destinationFilepath) ==>
        var src := Lookup(old(rows), Normalize(sourceFilepath).value).value;
        r.value == Some(src.(filepath := Normalize(destinationFilepath).value))
      ensures r.Ok? && Normalize(sourceFilepath) == Normalize(destinationFilepath) ==>
        var src := Lookup(old(rows), Normalize(sourceFilepath).value).value;
        r.value == None && src.objectId !in blobs
    {
      if IsNullOrWhiteSpace(sourceFilepath) || IsNullOrWhiteSpace(destinationFilepath) {
        return Err(InvalidArgument);
      }
      ghost var s0 := State();
      var srcPath := Normalize(sourceFilepath).value;
      var dstPath := Normalize(destinationFilepath).value;
      NormalizeIdempotent(sourceFilepath);
      NormalizeIdempotent(destinationFilepath);
      var srcFile := Find(Some(srcPath)).value;
      var destFile := Find(Some(dstPath)).value;
      if srcFile.None? {
        return Err(NotFound);
      }
      if destFile.Some? && !overwrite {
        return Err(AlreadyExists);
      }
      var src := srcFile.value;
      LookupFound(rows, srcPath, src);
      if PathsDistinct(s0.rows) && srcPath != dstPath {
        MoveKeepsIdentity(s0, srcPath, dstPath, src);
      }
      if srcPath == dstPath {
        MoveOntoItselfDeletes(s0, dstPath, src);
      }
      r := MoveTransaction(src, dstPath, destFile, deleteFault, fault);
    }

    /** The transaction of `Move`: delete the file found at the destination,
        if any, then point the source's row at the destination; a failing
        step rolls all of it back. The result is `Find` of the destination. */
    method MoveTransaction(src: Row, dstPath: string, destFile: Option<Row>, deleteFault: Fault, fault: Fault)
      returns (r: Result<Option<Row>>)
      requires Valid(State()) && src in rows
      requires Normalize(Some(dstPath)) == Ok(dstPath) && destFile == Lookup(rows, dstPath)
      modifies this
      ensures Valid(State())
      ensures r == if (destFile.Some? && Interrupts(deleteFault, 3)) || Interrupts(fault, 2) then Err(StorageFailure)
                   else Ok(Lookup(rows, dstPath))
      ensures r.Err? ==> State() == old(State())
      ensures r.Ok? ==> State() == Moved(DeleteEffect(old(State()), dstPath), src.id, dstPath)
    {
      ghost var s0 := State();
      var savedRows, savedBlobs := rows, blobs;
      if destFile.Some? {
        assert destFile.value.filepath == dstPath by { LookupFound(rows, dstPath, destFile.value); }
        var deleted := Delete(Some(destFile.value.filepath), deleteFault);
        if deleted.Err? {
          return Err(deleted.error);
        }
      }
      assert State() == DeleteEffect(s0, dstPath);
      if fault == FailAt(0) {
        rows, blobs := savedRows, savedBlobs;
        return Err(StorageFailure);
      }
      MovedValid(State(), src.id, dstPath);
      rows := SetPath(rows, src.id, dstPath);
      if fault == FailAt(1) {
        rows, blobs := savedRows, savedBlobs;
        return Err(StorageFailure);
      }
      r := Ok(Find(Some(dstPath)).value);
    }

    /** Meant to store a temporary file under `/tmp/<section>/`: the path is
        built from the random `section` Guid, the file name and the
        normalised extension, but the buffer is never written; the result
        is only `Find` of that path. */
    function CreateTempFile(filename: Option<string>, buffer: Option<seq<byte>>, extension: Option<string>,
                            section: Guid): (r: Result<Option<Row>>)
      reads this
      ensures r.Ok?
      ensures r.value == Lookup(rows, "/tmp/" + Hex(section, 32) + "/" + Lower(OrEmpty(filename) + NormalizeExtension(extension)))
      ensures r.value.Some? ==> r.value.value in rows
    {
      var path := TempPath(Section(section), filename, extension);
      TempPathShape(section, filename, extension);
      TempPathLowered(section, filename, extension);
      Find(Some(path))
    }

    /** Meant to remove the temporary files older than `expiration`: it
        selects the paths matching `%/tmp` instead, ignores `expiration`,
        and deletes each selected path in turn; a failing delete stops the
        sweep, keeping the deletions made before it. */
    method CleanupExpiredTempFiles(expiration: int, faults: nat -> Fault) returns (r: Result<()>)
      requires Valid(State())
      modifies this
      ensures Valid(State())
      ensures forall x :: x in rows ==> x in old(rows)
      ensures forall x :: x in old(rows) && !IsTmpRow(x) ==> x in rows
      ensures forall o :: o in blobs ==> o in old(blobs) && blobs[o] == old(blobs)[o]
      ensures (forall k :: faults(k) == NoFault) ==> r.Ok?
      ensures r.Ok? && TmpRowsAddressable(old(rows)) ==> rows == NonTmpRows(old(rows))
    {
      ghost var start := State();
      var paths := TmpPaths(rows);
      SweepBounds(start.rows);
      for i := 0 to |paths|
        invariant Swept(start, State(), paths, i)
      {
        SweepAdvance(start, State(), paths, i);
        var deleted := Delete(Some(paths[i]), faults(i));
        if deleted.Err? {
          return Err(deleted.error);
        }
      }
      assert paths[..|paths|] == paths;
      r := Ok(());
    }
  }
}
