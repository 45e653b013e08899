/** The `files` table and the large-object store as values: the row type,
    the consistency of the two stores, the queries the repository runs, and
    the effect each of its updates has on the stores. */
module Table {
  import opened Wrappers
  import opened Guids
  import opened Paths

  newtype byte = b: int | 0 <= b < 256

  /** A PostgreSQL large-object id, a `uint`. */
  type ObjId = n: nat | n < 0x1_0000_0000

  /** A `DateTime`, as a count of ticks. */
  type Timestamp = int

  /** A row of `files(id, object_id, filepath, created_on, modified_on, created_by, modified_by)`. */
  datatype Row = Row(
    id: Guid,
    objectId: ObjId,
    filepath: string,
    createdOn: Timestamp,
    modifiedOn: Timestamp,
    createdBy: Option<Guid>,
    modifiedBy: Option<Guid>)

  /** The table, in the order the database returns its rows, and the large
      objects holding the file contents. */
  datatype Store = Store(rows: seq<Row>, blobs: map<ObjId, seq<byte>>)

  predicate IdsDistinct(rows: seq<Row>) {
    forall i, j :: 0 <= i < j < |rows| ==> rows[i].id != rows[j].id
  }

  predicate ObjectIdsDistinct(rows: seq<Row>) {
    forall i, j :: 0 <= i < j < |rows| ==> rows[i].objectId != rows[j].objectId
  }

  predicate PathsDistinct(rows: seq<Row>) {
    forall i, j :: 0 <= i < j < |rows| ==> rows[i].filepath != rows[j].filepath
  }

  function ObjectIds(rows: seq<Row>): set<ObjId> {
    set x | x in rows :: x.objectId
  }

  /** Row ids are keys, every row owns its own large object, and every large
      object belongs to a row: no dangling reference, no orphaned object. */
  predicate Valid(s: Store) {
    IdsDistinct(s.rows) && ObjectIdsDistinct(s.rows) && s.blobs.Keys == ObjectIds(s.rows)
  }

  /** `id` is used by no row and `objectId` by no large object. */
  predicate Fresh(s: Store, id: Guid, objectId: ObjId) {
    (forall x :: x in s.rows ==> x.id != id) && objectId !in s.blobs
  }

  /** `Fault` makes one of the first `n` steps of a transaction fail. */
  predicate Interrupts(fault: Fault, n: nat) {
    fault.FailAt? && fault.step < n
  }

  // ---------------------------------------------------------------------
  // Selecting rows

  /** The rows that satisfy `keep`, in table order: a `WHERE` clause. */
  function Filter(rows: seq<Row>, keep: Row -> bool): (r: seq<Row>)
    ensures |r| <= |rows|
    ensures forall x :: x in r ==> x in rows && keep(x)
  {
    if rows == [] then []
    else
      var init := Filter(rows[..|rows| - 1], keep);
      if keep(rows[|rows| - 1]) then init + [rows[|rows| - 1]] else init
  }

  /** `idx` sends each position of `xs` to a position of `ys` holding the
      same row, in increasing order. */
  ghost predicate IndexMap(xs: seq<Row>, ys: seq<Row>, idx: seq<nat>) {
    && |idx| == |xs|
    && (forall a :: 0 <= a < |idx| ==> idx[a] < |ys| && ys[idx[a]] == xs[a])
    && (forall a, b :: 0 <= a < b < |idx| ==> idx[a] < idx[b])
  }

  /** `xs` is `ys` with some rows left out and the rest in the same order. */
  ghost predicate IsOrderedSubsequence(xs: seq<Row>, ys: seq<Row>) {
    exists idx :: IndexMap(xs, ys, idx)
  }

  /** The positions a filter keeps: in order, and every position whose row
      satisfies the predicate. */
  lemma {:induction false} FilterIndices(rows: seq<Row>, keep: Row -> bool) returns (idx: seq<nat>)
    ensures IndexMap(Filter(rows, keep), rows, idx)
    ensures forall j :: 0 <= j < |rows| && keep(rows[j]) ==> j in idx
  {
    if rows == [] {
      idx := [];
    } else {
      var n := |rows| - 1;
      var init := rows[..n];
      var pre := FilterIndices(init, keep);
      idx := if keep(rows[n]) then pre + [n] else pre;
      assert IndexMap(Filter(rows, keep), rows, idx) by {
        if keep(rows[n]) {
          FilterIndicesStep(rows, keep, pre, idx);
        } else {
          FilterIndicesSkip(rows, keep, pre);
        }
      }
      assert forall j :: 0 <= j < |rows| && keep(rows[j]) ==> j in idx by {
        FilterIndicesCover(rows, keep, pre, idx);
      }
    }
  }

  lemma FilterIndicesCover(rows: seq<Row>, keep: Row -> bool, pre: seq<nat>, idx: seq<nat>)
    requires rows != []
    requires forall j :: 0 <= j < |rows| - 1 && keep(rows[..|rows| - 1][j]) ==> j in pre
    requires idx == if keep(rows[|rows| - 1]) then pre + [|rows| - 1] else pre
    ensures forall j :: 0 <= j < |rows| && keep(rows[j]) ==> j in idx
  {
    var n := |rows| - 1;
    forall j | 0 <= j < |rows| && keep(rows[j]) ensures j in idx {
      if j < n {
        assert rows[..n][j] == rows[j];
        assert j in pre;
      } else {
        assert idx[|idx| - 1] == n;
      }
    }
  }

  lemma FilterIndicesSkip(rows: seq<Row>, keep: Row -> bool, pre: seq<nat>)
    requires rows != [] && !keep(rows[|rows| - 1])
    requires IndexMap(Filter(rows[..|rows| - 1], keep), rows[..|rows| - 1], pre)
    ensures IndexMap(Filter(rows, keep), rows, pre)
  {
    assert Filter(rows, keep) == Filter(rows[..|rows| - 1], keep);
    IndexMapExtend(Filter(rows, keep), rows, pre);
  }

  lemma FilterIndicesStep(rows: seq<Row>, keep: Row -> bool, pre: seq<nat>, idx: seq<nat>)
    requires rows != [] && keep(rows[|rows| - 1])
    requires IndexMap(Filter(rows[..|rows| - 1], keep), rows[..|rows| - 1], pre)
    requires idx == pre + [|rows| - 1]
    ensures IndexMap(Filter(rows, keep), rows, idx)
  {
    var fi := Filter(rows[..|rows| - 1], keep);
    assert Filter(rows, keep) == fi + [rows[|rows| - 1]];
    IndexMapAppend(fi, rows, pre);
  }

  /** An index map into all rows but the last is one into all the rows. */
  lemma IndexMapExtend(xs: seq<Row>, rows: seq<Row>, pre: seq<nat>)
    requires rows != [] && IndexMap(xs, rows[..|rows| - 1], pre)
    ensures IndexMap(xs, rows, pre)
  {
    forall a | 0 <= a < |pre| ensures pre[a] < |rows| && rows[pre[a]] == xs[a] {
      assert rows[..|rows| - 1][pre[a]] == rows[pre[a]];
    }
  }

  /** Keeping the last row as well appends its position to the index map. */
  lemma IndexMapAppend(xs: seq<Row>, rows: seq<Row>, pre: seq<nat>)
    requires rows != [] && IndexMap(xs, rows[..|rows| - 1], pre)
    ensures IndexMap(xs + [rows[|rows| - 1]], rows, pre + [|rows| - 1])
  {
    var n := |rows| - 1;
    var idx := pre + [n];
    var ys := xs + [rows[n]];
    IndexMapExtend(xs, rows, pre);
    forall a | 0 <= a < |idx| ensures idx[a] < |rows| && rows[idx[a]] == ys[a] {
      if a < |pre| {
        assert idx[a] == pre[a] && ys[a] == xs[a];
      }
    }
    forall a | 0 <= a < |pre| ensures pre[a] < n {
      assert pre[a] < |rows[..n]|;
    }
    AppendKeepsIncreasing(pre, n);
  }

  /** An increasing sequence of positions stays increasing when a position
      above all of them is appended. */
  lemma AppendKeepsIncreasing(pre: seq<nat>, n: nat)
    requires forall a, b :: 0 <= a < b < |pre| ==> pre[a] < pre[b]
    requires forall a :: 0 <= a < |pre| ==> pre[a] < n
    ensures forall a, b :: 0 <= a < b < |pre| + 1 ==> (pre + [n])[a] < (pre + [n])[b]
  {
    var idx := pre + [n];
    forall a, b | 0 <= a < b < |idx| ensures idx[a] < idx[b] {
      if b == |pre| {
        assert idx[a] == pre[a];
      }
    }
  }

  /** The positions of an increasing sequence spread out at least one apart. */
  lemma {:induction false} IncreasingSpread(idx: seq<nat>)
    requires forall a, b :: 0 <= a < b < |idx| ==> idx[a] < idx[b]
    ensures |idx| > 0 ==> idx[|idx| - 1] - idx[0] >= |idx| - 1
  {
    if |idx| > 1 {
      IncreasingSpread(idx[..|idx| - 1]);
      assert idx[|idx| - 2] < idx[|idx| - 1];
    }
  }

  /** A filter keeps every row that satisfies its predicate. */
  lemma FilterKeeps(rows: seq<Row>, keep: Row -> bool, x: Row)
    requires x in rows && keep(x)
    ensures x in Filter(rows, keep)
  {
    var idx := FilterIndices(rows, keep);
    var j :| 0 <= j < |rows| && rows[j] == x;
    assert j in idx;
  }

  /** Predicates that agree on the rows select the same rows. */
  lemma {:induction false} FilterExt(rows: seq<Row>, f: Row -> bool, g: Row -> bool)
    requires forall x :: x in rows ==> f(x) == g(x)
    ensures Filter(rows, f) == Filter(rows, g)
  {
    if rows != [] {
      FilterExt(rows[..|rows| - 1], f, g);
    }
  }

  /** Filtering twice is filtering once by the conjunction. */
  lemma {:induction false} FilterTwice(rows: seq<Row>, f: Row -> bool, g: Row -> bool, h: Row -> bool)
    requires forall x :: x in rows ==> h(x) == (f(x) && g(x))
    ensures Filter(Filter(rows, f), g) == Filter(rows, h)
  {
    if rows != [] {
      var n := |rows| - 1;
      FilterTwice(rows[..n], f, g, h);
      if f(rows[n]) {
        var inner := Filter(rows[..n], f);
        assert (inner + [rows[n]])[..|inner|] == inner;
      }
    }
  }

  /** A predicate every row satisfies keeps the whole table. */
  lemma {:induction false} FilterAll(rows: seq<Row>, f: Row -> bool)
    requires forall x :: x in rows ==> f(x)
    ensures Filter(rows, f) == rows
  {
    if rows != [] {
      FilterAll(rows[..|rows| - 1], f);
    }
  }

  /** Selecting rows keeps keys distinct, and keeps a valid store's rows valid. */
  lemma FilterDistinct(rows: seq<Row>, keep: Row -> bool)
    ensures IdsDistinct(rows) ==> IdsDistinct(Filter(rows, keep))
    ensures ObjectIdsDistinct(rows) ==> ObjectIdsDistinct(Filter(rows, keep))
    ensures PathsDistinct(rows) ==> PathsDistinct(Filter(rows, keep))
  {
    var idx := FilterIndices(rows, keep);
  }

  /** Two different rows of a valid table differ in id and in object id. */
  lemma DistinctRows(rows: seq<Row>, x: Row, y: Row)
    requires IdsDistinct(rows) && ObjectIdsDistinct(rows)
    requires x in rows && y in rows && x != y
    ensures x.id != y.id && x.objectId != y.objectId
  {
    var i :| 0 <= i < |rows| && rows[i] == x;
    var j :| 0 <= j < |rows| && rows[j] == y;
    assert i != j;
  }

  lemma DistinctPaths(rows: seq<Row>, x: Row, y: Row)
    requires PathsDistinct(rows) && x in rows && y in rows && x != y
    ensures x.filepath != y.filepath
  {
    var i :| 0 <= i < |rows| && rows[i] == x;
    var j :| 0 <= j < |rows| && rows[j] == y;
    assert i != j;
  }

  // ---------------------------------------------------------------------
  // Find

  function WithPath(rows: seq<Row>, path: string): seq<Row> {
    Filter(rows, (x: Row) => x.filepath == path)
  }

  /** `SELECT * FROM files WHERE filepath = @filepath`, read as `Find` reads
      it: a record when exactly one row comes back, otherwise null. */
  function Lookup(rows: seq<Row>, path: string): (r: Option<Row>)
    ensures r.Some? ==> r.value in rows && r.value.filepath == path
  {
    var m := WithPath(rows, path);
    assert |m| == 1 ==> m[0] in m;
    if |m| == 1 then Some(m[0]) else None
  }

  /** Row `i` is the one and only row at `path`. */
  ghost predicate UniqueAt(rows: seq<Row>, path: string, i: int) {
    && 0 <= i < |rows| && rows[i].filepath == path
    && forall j :: 0 <= j < |rows| && rows[j].filepath == path ==> j == i
  }

  /** `Lookup` finds a row exactly when one row, and only one, has the path. */
  lemma LookupIsUniqueMatch(rows: seq<Row>, path: string)
    ensures Lookup(rows, path).Some? ==> exists i :: UniqueAt(rows, path, i) && Lookup(rows, path) == Some(rows[i])
    ensures forall i :: UniqueAt(rows, path, i) ==> Lookup(rows, path) == Some(rows[i])
  {
    var keep := (x: Row) => x.filepath == path;
    var idx := FilterIndices(rows, keep);
    var m := WithPath(rows, path);
    if |m| == 1 {
      assert UniqueAt(rows, path, idx[0]);
    }
    forall i | UniqueAt(rows, path, i) ensures Lookup(rows, path) == Some(rows[i]) {
      assert i in idx;
      var last := |idx| - 1;
      assert m[0] in m && m[last] in m;
      assert idx[0] == i == idx[last];
      IncreasingSpread(idx);
    }
  }

  lemma LookupFound(rows: seq<Row>, path: string, f: Row)
    requires Lookup(rows, path) == Some(f)
    ensures f in rows && f.filepath == path
    ensures forall x :: x in rows && x.filepath == path ==> x == f
  {
    LookupIsUniqueMatch(rows, path);
  }

  /** With distinct paths, the row at a path is what `Lookup` finds. */
  lemma LookupDistinct(rows: seq<Row>, path: string, f: Row)
    requires PathsDistinct(rows) && f in rows && f.filepath == path
    ensures Lookup(rows, path) == Some(f)
  {
    var i :| 0 <= i < |rows| && rows[i] == f;
    assert UniqueAt(rows, path, i);
    LookupIsUniqueMatch(rows, path);
  }

  /** The row that alone holds a path, among rows with distinct ids, is
      what `Lookup` finds. */
  lemma LookupOwned(rows: seq<Row>, path: string, f: Row)
    requires IdsDistinct(rows) && f in rows && f.filepath == path
    requires forall x :: x in rows && x.filepath == path ==> x == f
    ensures Lookup(rows, path) == Some(f)
  {
    var i :| 0 <= i < |rows| && rows[i] == f;
    forall j | 0 <= j < |rows| && rows[j].filepath == path ensures j == i {
      assert rows[j] == f;
    }
    assert UniqueAt(rows, path, i);
    LookupIsUniqueMatch(rows, path);
  }

  /** With distinct paths, `Lookup` misses only a path no row has. */
  lemma LookupNoneDistinct(rows: seq<Row>, path: string)
    requires PathsDistinct(rows) && Lookup(rows, path) == None
    ensures forall x :: x in rows ==> x.filepath != path
  {
    LookupIsUniqueMatch(rows, path);
    forall x | x in rows ensures x.filepath != path {
      var i :| 0 <= i < |rows| && rows[i] == x;
      assert x.filepath == path ==> UniqueAt(rows, path, i);
    }
  }

  lemma LookupAbsent(rows: seq<Row>, path: string)
    requires forall x :: x in rows ==> x.filepath != path
    ensures Lookup(rows, path) == None
  {
    LookupIsUniqueMatch(rows, path);
  }

  // ---------------------------------------------------------------------
  // FindAll

  /** `path ILIKE '%' + suffix`, for a suffix without wildcards: a
      case-insensitive "ends with". */
  predicate ILikeSuffix(path: string, suffix: string) {
    EndsWith(Lower(path), Lower(suffix))
  }

  /** What `%/tmp` recognises as a temporary file. */
  predicate IsTmpRow(x: Row) {
    ILikeSuffix(x.filepath, TmpSuffix)
  }

  /** Whether `FindAll` lists a row: temporary rows only when asked for, and
      only rows whose path ends with the normalised `startsWithPath`. */
  predicate Listed(x: Row, startsWith: Option<string>, includeTempFiles: bool) {
    && (includeTempFiles || !IsTmpRow(x))
    && (startsWith.None? || ILikeSuffix(x.filepath, startsWith.value))
  }

  function Listing(rows: seq<Row>, startsWith: Option<string>, includeTempFiles: bool): (r: seq<Row>)
    ensures forall x :: x in r ==> x in rows && Listed(x, startsWith, includeTempFiles)
  {
    Filter(rows, (x: Row) => Listed(x, startsWith, includeTempFiles))
  }

  /** The four `SELECT`s of `FindAll`, before paging, one per combination of
      "a start path is given" and "temporary files are included". */
  function BranchQuery(rows: seq<Row>, startsWith: Option<string>, includeTempFiles: bool): (r: seq<Row>)
    ensures forall x :: x in r ==> x in rows
    ensures includeTempFiles && startsWith.None? ==> r == rows
  {
    if !includeTempFiles && startsWith.Some? then
      Filter(rows, (x: Row) => !IsTmpRow(x) && ILikeSuffix(x.filepath, startsWith.value))
    else if startsWith.Some? then
      Filter(rows, (x: Row) => ILikeSuffix(x.filepath, startsWith.value))
    else if !includeTempFiles then
      Filter(rows, (x: Row) => !IsTmpRow(x))
    else
      rows
  }

  /** The four queries are one filter. */
  lemma BranchQueryIsListing(rows: seq<Row>, startsWith: Option<string>, includeTempFiles: bool)
    ensures BranchQuery(rows, startsWith, includeTempFiles) == Listing(rows, startsWith, includeTempFiles)
  {
    var listed := (x: Row) => Listed(x, startsWith, includeTempFiles);
    if !includeTempFiles && startsWith.Some? {
      FilterExt(rows, (x: Row) => !IsTmpRow(x) && ILikeSuffix(x.filepath, startsWith.value), listed);
    } else if startsWith.Some? {
      FilterExt(rows, (x: Row) => ILikeSuffix(x.filepath, startsWith.value), listed);
    } else if !includeTempFiles {
      FilterExt(rows, (x: Row) => !IsTmpRow(x), listed);
    } else {
      FilterAll(rows, listed);
    }
  }

  /** `LIMIT n OFFSET m` as values; no limit stands for `LIMIT ALL`. */
  datatype Paging = Paging(offset: nat, limit: Option<nat>)

  /** The paging clause of `FindAll`: a missing skip is offset 0, a missing
      limit is `ALL`; PostgreSQL refuses a negative LIMIT or OFFSET. */
  function PagingOf(skip: Option<int>, limit: Option<int>): (r: Result<Paging>)
    ensures r.Err? <==> (skip.Some? && skip.value < 0) || (limit.Some? && limit.value < 0)
    ensures r.Ok? ==> (skip.Some? ==> r.value.offset == skip.value) && (skip.None? ==> r.value.offset == 0)
    ensures r.Ok? ==> (limit.Some? <==> r.value.limit.Some?) && (limit.Some? ==> r.value.limit.value == limit.value)
  {
    if (skip.Some? && skip.value < 0) || (limit.Some? && limit.value < 0) then Err(StorageFailure)
    else Ok(Paging(if skip.Some? then skip.value else 0, if limit.Some? then Some(limit.value as nat) else None))
  }

  /** The window of `xs` a paging clause selects: at most `limit` rows,
      consecutive in `xs`, starting at `offset`. */
  function Page(xs: seq<Row>, p: Paging): (r: seq<Row>)
    ensures p.limit.Some? ==> |r| <= p.limit.value
  {
    var rest := if p.offset <= |xs| then xs[p.offset..] else [];
    if p.limit.Some? && p.limit.value < |rest| then rest[..p.limit.value] else rest
  }

  /** How a page grows when one more row qualifies. */
  lemma PageSnoc(xs: seq<Row>, x: Row, p: Paging)
    ensures Page(xs + [x], p)
         == if |xs| >= p.offset && (p.limit.None? || |Page(xs, p)| < p.limit.value)
            then Page(xs, p) + [x] else Page(xs, p)
  {
    if |xs| >= p.offset {
      assert (xs + [x])[p.offset..] == xs[p.offset..] + [x];
    }
  }

  /** How the listing grows by one row of the table. */
  lemma ListingSnoc(rows: seq<Row>, i: nat, startsWith: Option<string>, includeTempFiles: bool)
    requires i < |rows|
    ensures Listing(rows[..i + 1], startsWith, includeTempFiles)
         == Listing(rows[..i], startsWith, includeTempFiles)
            + if Listed(rows[i], startsWith, includeTempFiles) then [rows[i]] else []
  {
    assert rows[..i + 1][..i] == rows[..i];
  }

  /** One row of the scan `FindAll` makes: a qualifying row is counted, and
      kept when the window has started and still has room. */
  lemma ScanStep(rows: seq<Row>, i: nat, startsWith: Option<string>, includeTempFiles: bool, p: Paging,
                 matched: nat, files: seq<Row>)
    requires i < |rows|
    requires matched == |Listing(rows[..i], startsWith, includeTempFiles)|
    requires files == Page(Listing(rows[..i], startsWith, includeTempFiles), p)
    ensures var listed := Listed(rows[i], startsWith, includeTempFiles);
      && (if listed then matched + 1 else matched) == |Listing(rows[..i + 1], startsWith, includeTempFiles)|
      && (if listed && matched >= p.offset && (p.limit.None? || |files| < p.limit.value)
          then files + [rows[i]] else files)
         == Page(Listing(rows[..i + 1], startsWith, includeTempFiles), p)
  {
    ListingSnoc(rows, i, startsWith, includeTempFiles);
    PageSnoc(Listing(rows[..i], startsWith, includeTempFiles), rows[i], p);
  }

  /** A window of an ordered subsequence is an ordered subsequence too. */
  lemma WindowIsOrdered(xs: seq<Row>, ys: seq<Row>, idx: seq<nat>, a: nat, n: nat)
    requires IndexMap(xs, ys, idx) && a + n <= |xs|
    ensures IndexMap(xs[a..a + n], ys, idx[a..a + n])
  {
  }

  /** A page of a filter holds only rows that satisfy it, at most `limit`
      of them, in table order. */
  lemma PageOfFilter(rows: seq<Row>, keep: Row -> bool, p: Paging)
    ensures var pg := Page(Filter(rows, keep), p);
      && (forall x :: x in pg ==> x in rows && keep(x))
      && IsOrderedSubsequence(pg, rows)
  {
    var l := Filter(rows, keep);
    PageWithin(l, p);
    var idx := FilterIndices(rows, keep);
    PageOrdered(l, rows, idx, p);
  }

  /** A page holds only rows of what it pages. */
  lemma PageWithin(xs: seq<Row>, p: Paging)
    ensures forall x :: x in Page(xs, p) ==> x in xs
  {
    var pg := Page(xs, p);
    if p.offset < |xs| {
      forall x | x in pg ensures x in xs {
        var a :| 0 <= a < |pg| && pg[a] == x;
        assert xs[p.offset + a] == x;
      }
    }
  }

  /** A page of an ordered subsequence is an ordered subsequence. */
  lemma PageOrdered(xs: seq<Row>, ys: seq<Row>, idx: seq<nat>, p: Paging)
    requires IndexMap(xs, ys, idx)
    ensures IsOrderedSubsequence(Page(xs, p), ys)
  {
    var pg := Page(xs, p);
    if p.offset < |xs| {
      WindowIsOrdered(xs, ys, idx, p.offset, |pg|);
      assert IndexMap(pg, ys, idx[p.offset..p.offset + |pg|]);
    } else {
      assert IndexMap(pg, ys, []);
    }
  }

  /** A page of the listing holds only rows that qualify, at most `limit`
      of them, in table order; and it is a page of the four queries. */
  lemma PageOfListing(rows: seq<Row>, startsWith: Option<string>, includeTempFiles: bool, p: Paging)
    ensures var pg := Page(Listing(rows, startsWith, includeTempFiles), p);
      && pg == Page(BranchQuery(rows, startsWith, includeTempFiles), p)
      && (forall x :: x in pg ==> x in rows && Listed(x, startsWith, includeTempFiles))
      && IsOrderedSubsequence(pg, rows)
      && (p.limit.Some? ==> |pg| <= p.limit.value)
  {
    PageOfFilter(rows, (x: Row) => Listed(x, startsWith, includeTempFiles), p);
    BranchQueryIsListing(rows, startsWith, includeTempFiles);
  }

  /** The `startsWithPath` filter is a suffix match: a file inside folder
      `/a` is not listed for `/a`, while `/a/b` is listed for `/b`. */
  lemma StartsWithFilterMatchesSuffix(x: Row)
    requires x.filepath == "/a/b"
    ensures StartsWith(x.filepath, "/a") && !Listed(x, StartsWithFilter(Some("/a")), true)
    ensures !StartsWith(x.filepath, "/b") && Listed(x, StartsWithFilter(Some("/b")), true)
  {
    var a, b := ['/', 'a'], ['/', 'b'];
    assert HasNoUpper(x.filepath) by {
      forall i | 0 <= i < 4 ensures !IsUpper(x.filepath[i]) {
        assert i == 0 || i == 1 || i == 2 || i == 3;
      }
    }
    LowerOfNoUpper(x.filepath);
    assert StartsWithFilter(Some(a)) == Some(a) by {
      assert !IsWhiteSpace(a[0]);
      LowerOfNoUpper(a);
      NormalizeFixesExactlyCanonical(a);
    }
    assert StartsWithFilter(Some(b)) == Some(b) by {
      assert !IsWhiteSpace(b[0]);
      LowerOfNoUpper(b);
      NormalizeFixesExactlyCanonical(b);
    }
    assert x.filepath[..2] == a && x.filepath[2..] == b;
    assert x.filepath[2..] != a && x.filepath[..2] != b;
  }

  // ---------------------------------------------------------------------
  // Delete

  function RemoveId(rows: seq<Row>, id: Guid): seq<Row> {
    Filter(rows, (x: Row) => x.id != id)
  }

  /** The stores once file `f` is deleted: its large object unlinked, and
      the rows carrying its id removed. */
  function Deleted(s: Store, f: Row): Store {
    Store(RemoveId(s.rows, f.id), s.blobs - {f.objectId})
  }

  /** What a committed `Delete` of a canonical path does: nothing unless
      `Find` returns a record, otherwise that record's deletion. */
  function DeleteEffect(s: Store, path: string): Store {
    match Lookup(s.rows, path)
    case None => s
    case Some(f) => Deleted(s, f)
  }

  /** Deleting a row of a valid store removes that row and no other, and
      keeps the two stores consistent. */
  lemma DeletedRows(s: Store, f: Row)
    requires Valid(s) && f in s.rows
    ensures forall x :: x in Deleted(s, f).rows <==> x in s.rows && x != f
    ensures Valid(Deleted(s, f))
  {
    var keep := (x: Row) => x.id != f.id;
    var d := Deleted(s, f);
    forall x | x in s.rows && x != f ensures x in d.rows {
      DistinctRows(s.rows, x, f);
      FilterKeeps(s.rows, keep, x);
    }
    FilterDistinct(s.rows, keep);
    forall o ensures o in d.blobs <==> o in ObjectIds(d.rows) {
      if o in ObjectIds(d.rows) {
        var x :| x in d.rows && x.objectId == o;
        DistinctRows(s.rows, x, f);
      }
      if o in d.blobs {
        var x :| x in s.rows && x.objectId == o;
        assert x != f;
      }
    }
  }

  /** A committed delete keeps the stores consistent, leaves nothing at the
      path, keeps every row at another path, and only removes rows and
      large objects. */
  lemma DeleteEffectFacts(s: Store, path: string)
    requires Valid(s)
    ensures Valid(DeleteEffect(s, path))
    ensures Lookup(DeleteEffect(s, path).rows, path) == None
    ensures forall x :: x in DeleteEffect(s, path).rows ==> x in s.rows
    ensures forall x :: x in s.rows && x.filepath != path ==> x in DeleteEffect(s, path).rows
    ensures forall o :: o in DeleteEffect(s, path).blobs ==> o in s.blobs && DeleteEffect(s, path).blobs[o] == s.blobs[o]
  {
    match Lookup(s.rows, path)
    case None =>
    case Some(f) =>
      LookupFound(s.rows, path, f);
      DeletedRows(s, f);
      LookupAbsent(DeleteEffect(s, path).rows, path);
  }

  /** Deleting a file that `Find` returns removes exactly its row and its large object. */
  lemma DeleteRemovesExactly(s: Store, path: string, f: Row)
    requires Valid(s) && Lookup(s.rows, path) == Some(f)
    ensures forall x :: x in DeleteEffect(s, path).rows <==> x in s.rows && x != f
    ensures DeleteEffect(s, path).blobs == s.blobs - {f.objectId}
    ensures f.objectId in s.blobs && f.objectId !in DeleteEffect(s, path).blobs
  {
    LookupFound(s.rows, path, f);
    DeletedRows(s, f);
  }

  /** A second delete of the same path changes nothing. */
  lemma DeleteIdempotent(s: Store, path: string)
    requires Valid(s)
    ensures DeleteEffect(DeleteEffect(s, path), path) == DeleteEffect(s, path)
  {
    DeleteEffectFacts(s, path);
  }

  // ---------------------------------------------------------------------
  // Create

  /** The row `Create` inserts: the Guid's text as its file path, and the
      same date and principal for creation and modification. */
  function NewRow(id: Guid, objectId: ObjId, pathGuid: Guid, date: Timestamp, createdBy: Option<Guid>): (r: Row)
    ensures !StartsWith(r.filepath, FolderSeparator)
    ensures r.modifiedOn == r.createdOn && r.modifiedBy == r.createdBy
  {
    var text := GuidText(pathGuid);
    assert IsHexDigit(text[0]);
    Row(id, objectId, text, date, date, createdBy, createdBy)
  }

  /** The stores after a committed `Create`: one more row, one more large object. */
  function Created(s: Store, row: Row, bytes: seq<byte>): Store {
    Store(s.rows + [row], s.blobs[row.objectId := bytes])
  }

  lemma CreatedValid(s: Store, row: Row, bytes: seq<byte>)
    requires Valid(s) && Fresh(s, row.id, row.objectId)
    ensures Valid(Created(s, row, bytes))
  {
    var r := s.rows + [row];
    assert ObjectIds(r) == ObjectIds(s.rows) + {row.objectId};
    forall i, j | 0 <= i < j < |r| ensures r[i].id != r[j].id && r[i].objectId != r[j].objectId {
      if j == |s.rows| {
        assert r[i] in s.rows;
      }
    }
  }

  /** No rooted path finds the inserted row: its path is a Guid's text,
      which starts with a hex digit. */
  lemma NewRowInvisible(rows: seq<Row>, row: Row, pathGuid: Guid, path: string)
    requires row.filepath == GuidText(pathGuid) && StartsWith(path, FolderSeparator)
    ensures Lookup(rows + [row], path) == Lookup(rows, path)
  {
    assert row.filepath[0] != path[0];
    assert (rows + [row])[..|rows|] == rows;
    assert WithPath(rows + [row], path) == WithPath(rows, path);
  }

  /** The contents are stored, reachable only under the Guid's text. */
  lemma CreatedStoresUnderGuidText(s: Store, row: Row, bytes: seq<byte>)
    requires Valid(s) && Fresh(s, row.id, row.objectId)
    requires forall x :: x in s.rows ==> x.filepath != row.filepath
    ensures Lookup(Created(s, row, bytes).rows, row.filepath) == Some(row)
    ensures Created(s, row, bytes).blobs[row.objectId] == bytes
  {
    var r := s.rows + [row];
    forall j | 0 <= j < |s.rows| ensures r[j].filepath != row.filepath {
      assert r[j] == s.rows[j] && s.rows[j] in s.rows;
    }
    assert UniqueAt(r, row.filepath, |s.rows|);
    LookupIsUniqueMatch(r, row.filepath);
  }

  // ---------------------------------------------------------------------
  // Move and UpdateModificationDate

  /** `UPDATE files SET filepath = @path WHERE id = @id`. */
  function SetPath(rows: seq<Row>, id: Guid, path: string): (r: seq<Row>)
    ensures |r| == |rows|
    ensures forall i :: 0 <= i < |r| ==> r[i].id == rows[i].id && r[i].objectId == rows[i].objectId
    ensures forall i :: 0 <= i < |r| && rows[i].id != id ==> r[i] == rows[i]
    ensures forall i :: 0 <= i < |r| && rows[i].id == id ==>
      r[i].filepath == path && r[i].(filepath := rows[i].filepath) == rows[i]
  {
    seq(|rows|, i requires 0 <= i < |rows| => if rows[i].id == id then rows[i].(filepath := path) else rows[i])
  }

  function Moved(s: Store, id: Guid, path: string): Store {
    Store(SetPath(s.rows, id, path), s.blobs)
  }

  /** `UPDATE files SET modified_on = @date WHERE id = @id`. */
  function SetModifiedOn(rows: seq<Row>, id: Guid, date: Timestamp): (r: seq<Row>)
    ensures |r| == |rows|
    ensures forall i :: 0 <= i < |r| ==> r[i].id == rows[i].id && r[i].filepath == rows[i].filepath
    ensures forall i :: 0 <= i < |r| && rows[i].id != id ==> r[i] == rows[i]
    ensures forall i :: 0 <= i < |r| && rows[i].id == id ==>
      r[i].modifiedOn == date && r[i].(modifiedOn := rows[i].modifiedOn) == rows[i]
  {
    seq(|rows|, i requires 0 <= i < |rows| => if rows[i].id == id then rows[i].(modifiedOn := date) else rows[i])
  }

  /** Re-pathing rows keeps ids and large objects, so the stores stay consistent. */
  lemma MovedValid(s: Store, id: Guid, path: string)
    requires Valid(s)
    ensures Valid(Moved(s, id, path))
  {
    var r := SetPath(s.rows, id, path);
    forall o ensures o in ObjectIds(r) <==> o in ObjectIds(s.rows) {
      if o in ObjectIds(r) {
        var x :| x in r && x.objectId == o;
        var i :| 0 <= i < |r| && r[i] == x;
        assert s.rows[i].objectId == o;
      }
      if o in ObjectIds(s.rows) {
        var x :| x in s.rows && x.objectId == o;
        var i :| 0 <= i < |s.rows| && s.rows[i] == x;
        assert r[i].objectId == o;
      }
    }
  }

  /** An update aimed at an id no row has changes nothing. */
  lemma UpdateOfUnknownIdChangesNothing(rows: seq<Row>, id: Guid, date: Timestamp, path: string)
    requires forall x :: x in rows ==> x.id != id
    ensures SetModifiedOn(rows, id, date) == rows
    ensures SetPath(rows, id, path) == rows
  {
    assert forall i :: 0 <= i < |rows| ==> rows[i] in rows;
  }

  /** A move to a free path keeps the record: same id, large object,
      timestamps and principals, now found at the destination. */
  lemma MoveKeepsIdentity(s: Store, src: string, dst: string, f: Row)
    requires Valid(s) && PathsDistinct(s.rows)
    requires Lookup(s.rows, src) == Some(f) && src != dst
    ensures Lookup(Moved(DeleteEffect(s, dst), f.id, dst).rows, dst) == Some(f.(filepath := dst))
  {
    var mid := DeleteEffect(s, dst);
    LookupFound(s.rows, src, f);
    DeleteEffectFacts(s, dst);
    assert PathsDistinct(mid.rows) by {
      if Lookup(s.rows, dst).Some? {
        FilterDistinct(s.rows, (x: Row) => x.id != Lookup(s.rows, dst).value.id);
      }
    }
    LookupNoneDistinct(mid.rows, dst);
    var i :| 0 <= i < |mid.rows| && mid.rows[i] == f;
    var r := SetPath(mid.rows, f.id, dst);
    forall j | 0 <= j < |r| && j != i ensures r[j].filepath != dst {
      assert mid.rows[j].id != f.id;
      assert mid.rows[j] in mid.rows;
    }
    assert UniqueAt(r, dst, i);
    LookupIsUniqueMatch(r, dst);
  }

  /** Moving a file onto its own path with overwrite deletes it. */
  lemma MoveOntoItselfDeletes(s: Store, path: string, f: Row)
    requires Valid(s) && Lookup(s.rows, path) == Some(f)
    ensures Moved(DeleteEffect(s, path), f.id, path) == DeleteEffect(s, path)
    ensures Lookup(DeleteEffect(s, path).rows, path) == None
    ensures f.objectId !in DeleteEffect(s, path).blobs
  {
    DeleteRemovesExactly(s, path, f);
    DeleteEffectFacts(s, path);
    UpdateOfUnknownIdChangesNothing(DeleteEffect(s, path).rows, f.id, 0, path);
  }

  // ---------------------------------------------------------------------
  // Copy

  /** The source of a copy survives the deletion of the destination
      whenever its large object does; and copying a file onto itself loses
      the large object it was about to read. */
  lemma CopySourceSurvives(s: Store, dst: string, f: Row)
    requires Valid(s) && f in s.rows
    ensures f.objectId in DeleteEffect(s, dst).blobs ==>
      f in DeleteEffect(s, dst).rows && DeleteEffect(s, dst).blobs[f.objectId] == s.blobs[f.objectId]
    ensures f.filepath == dst && Lookup(s.rows, dst) == Some(f) ==> f.objectId !in DeleteEffect(s, dst).blobs
  {
    match Lookup(s.rows, dst)
    case None =>
    case Some(d) =>
      DeleteRemovesExactly(s, dst, d);
  }

  /** What a committed copy leaves: the source row and its contents intact,
      the stores consistent, and the destination path still finding nothing,
      since the new row sits under a Guid's text. */
  lemma CopyOutcome(s: Store, dst: string, src: Row, row: Row, pathGuid: Guid)
    requires Valid(s) && src in s.rows && Fresh(s, row.id, row.objectId)
    requires row.filepath == GuidText(pathGuid) && StartsWith(dst, FolderSeparator)
    requires src.objectId in DeleteEffect(s, dst).blobs
    ensures var mid := DeleteEffect(s, dst);
      && Valid(mid) && Fresh(mid, row.id, row.objectId) && Lookup(mid.rows, dst) == None
      && src in mid.rows && mid.blobs[src.objectId] == s.blobs[src.objectId]
    ensures var mid := DeleteEffect(s, dst);
      var c := Created(mid, row, mid.blobs[src.objectId]);
      && Valid(c) && Lookup(c.rows, dst) == None
      && src in c.rows && c.blobs[src.objectId] == s.blobs[src.objectId]
  {
    var mid := DeleteEffect(s, dst);
    DeleteEffectFacts(s, dst);
    CopySourceSurvives(s, dst, src);
    CreatedValid(mid, row, mid.blobs[src.objectId]);
    NewRowInvisible(mid.rows, row, pathGuid, dst);
  }

  // ---------------------------------------------------------------------
  // CleanupExpiredTempFiles

  function TmpRows(rows: seq<Row>): seq<Row> {
    Filter(rows, (x: Row) => IsTmpRow(x))
  }

  function NonTmpRows(rows: seq<Row>): seq<Row> {
    Filter(rows, (x: Row) => !IsTmpRow(x))
  }

  /** `SELECT filepath FROM files WHERE filepath ILIKE '%/tmp'`. */
  function TmpPaths(rows: seq<Row>): (r: seq<string>)
    ensures |r| == |TmpRows(rows)|
    ensures forall i :: 0 <= i < |r| ==> r[i] == TmpRows(rows)[i].filepath
  {
    var t := TmpRows(rows);
    seq(|t|, i requires 0 <= i < |t| => t[i].filepath)
  }

  function WithoutPaths(rows: seq<Row>, paths: seq<string>): seq<Row> {
    Filter(rows, (x: Row) => x.filepath !in paths)
  }

  /** Every temporary row can be found again by its own path: it is stored
      in canonical form and no other temporary row shares its path (a
      non-temporary row cannot, as the pattern looks only at the path). */
  predicate TmpRowsAddressable(rows: seq<Row>) {
    PathsDistinct(TmpRows(rows)) && forall x :: x in rows && IsTmpRow(x) ==> IsCanonical(x.filepath)
  }

  /** A row at a temporary row's path is that row, when temporary rows
      have distinct paths. */
  lemma TmpPathOwned(rows: seq<Row>, f: Row, x: Row)
    requires PathsDistinct(TmpRows(rows)) && f in rows && IsTmpRow(f)
    requires x in rows && x.filepath == f.filepath
    ensures x == f
  {
    FilterKeeps(rows, (y: Row) => IsTmpRow(y), x);
    FilterKeeps(rows, (y: Row) => IsTmpRow(y), f);
    if x != f {
      DistinctPaths(TmpRows(rows), x, f);
    }
  }

  /** Every selected path matches `%/tmp`. */
  lemma TmpPathsMatch(rows: seq<Row>)
    ensures forall p :: p in TmpPaths(rows) ==> ILikeSuffix(p, TmpSuffix)
  {
    var t := TmpRows(rows);
    forall p | p in TmpPaths(rows) ensures ILikeSuffix(p, TmpSuffix) {
      var a :| 0 <= a < |t| && TmpPaths(rows)[a] == p;
      assert t[a] in t;
    }
  }

  /** `Delete` normalises a path the `%/tmp` pattern matched into one it
      still matches (and such a path is never blank). */
  lemma TmpPathSurvivesNormalize(p: string)
    requires ILikeSuffix(p, TmpSuffix)
    ensures !IsNullOrWhiteSpace(Some(p))
    ensures ILikeSuffix(Normalize(Some(p)).value, TmpSuffix)
  {
    TmpSuffixIsLower();
    var n := |p|;
    assert Lower(p)[n - 4..][0] == '/';
    assert LowerChar(p[n - 4]) == '/';
    assert !IsWhiteSpace(p[n - 4]);
    var q := Normalize(Some(p)).value;
    LowerOfNoUpper(q);
    assert q[|q| - 4..] == Lower(p)[n - 4..];
  }

  /** The next selected path still finds its own row part-way through the
      sweep. */
  lemma SweepTarget(start: Store, cur: Store, paths: seq<string>, i: nat)
    requires TmpRowsAddressable(start.rows) && paths == TmpPaths(start.rows) && i < |paths|
    requires IdsDistinct(cur.rows) && cur.rows == WithoutPaths(start.rows, paths[..i])
    ensures Lookup(cur.rows, paths[i]) == Some(TmpRows(start.rows)[i])
  {
    var t := TmpRows(start.rows);
    var f := t[i];
    assert f in t;
    forall k | 0 <= k < i ensures paths[k] != paths[i] {
      assert t[k].filepath != t[i].filepath;
    }
    assert paths[i] !in paths[..i];
    FilterKeeps(start.rows, (x: Row) => x.filepath !in paths[..i], f);
    forall x | x in cur.rows && x.filepath == paths[i] ensures x == f {
      TmpPathOwned(start.rows, f, x);
    }
    LookupOwned(cur.rows, paths[i], f);
  }

  /** One step of the sweep: deleting the next selected path removes
      exactly the row that has it. */
  lemma SweepStep(start: Store, cur: Store, paths: seq<string>, i: nat)
    requires Valid(start) && TmpRowsAddressable(start.rows) && paths == TmpPaths(start.rows) && i < |paths|
    requires Valid(cur) && cur.rows == WithoutPaths(start.rows, paths[..i])
    ensures Normalize(Some(paths[i])) == Ok(paths[i])
    ensures DeleteEffect(cur, paths[i]).rows == WithoutPaths(start.rows, paths[..i + 1])
  {
    var t := TmpRows(start.rows);
    var f := t[i];
    assert f in t;
    NormalizeFixesExactlyCanonical(paths[i]);
    SweepTarget(start, cur, paths, i);
    LookupFound(cur.rows, paths[i], f);
    forall x | x in cur.rows ensures (x.id != f.id) == (x.filepath != paths[i]) {
      if x != f {
        DistinctRows(cur.rows, x, f);
      }
    }
    FilterExt(cur.rows, (x: Row) => x.id != f.id, (x: Row) => x.filepath != paths[i]);
    FilterTwice(start.rows, (x: Row) => x.filepath !in paths[..i], (x: Row) => x.filepath != paths[i],
      (x: Row) => x.filepath !in paths[..i + 1]);
  }

  /** Where the sweep stands after deleting the first `i` selected paths:
      the stores consistent, no row or large object gained or altered, every
      row outside the pattern kept, and, when the temporary rows are
      addressable, exactly the first `i` selected paths gone. */
  ghost predicate Swept(start: Store, cur: Store, paths: seq<string>, i: nat) {
    && i <= |paths|
    && Valid(cur)
    && (forall x :: x in cur.rows ==> x in start.rows)
    && (forall x :: x in start.rows && !IsTmpRow(x) ==> x in cur.rows)
    && (forall o :: o in cur.blobs ==> o in start.blobs && cur.blobs[o] == start.blobs[o])
    && (TmpRowsAddressable(start.rows) ==> cur.rows == WithoutPaths(start.rows, paths[..i]))
  }

  /** Deleting the next selected path, as `Delete` normalises it, moves the
      sweep one path on. */
  lemma SweepAdvance(start: Store, cur: Store, paths: seq<string>, i: nat)
    requires Valid(start) && paths == TmpPaths(start.rows) && i < |paths|
    requires Swept(start, cur, paths, i)
    ensures !IsNullOrWhiteSpace(Some(paths[i]))
    ensures Swept(start, DeleteEffect(cur, Normalize(Some(paths[i])).value), paths, i + 1)
  {
    assert paths[i] in paths;
    TmpPathsMatch(start.rows);
    TmpPathSurvivesNormalize(paths[i]);
    var path := Normalize(Some(paths[i])).value;
    DeleteEffectFacts(cur, path);
    if TmpRowsAddressable(start.rows) {
      SweepStep(start, cur, paths, i);
    }
  }

  /** The `%/tmp` pattern picks a file called `tmp` in any folder, which
      is not one of the files `CreateTempFile` names under `/tmp/`. */
  lemma TmpPatternMatchesFileNamedTmp(x: Row)
    requires x.filepath == "/a/tmp"
    ensures IsTmpRow(x) && !StartsWith(x.filepath, FolderSeparator + TmpFolderName + FolderSeparator)
  {
    var t := TmpSuffix;
    assert t == ['/', 't', 'm', 'p'];
    assert x.filepath[2..] == t;
    assert HasNoUpper(x.filepath) by {
      forall i | 0 <= i < 6 ensures !IsUpper(x.filepath[i]) {
        assert i == 0 || i == 1 || i == 2 || i == 3 || i == 4 || i == 5;
      }
    }
    LowerOfNoUpper(x.filepath);
    TmpSuffixIsLower();
    assert x.filepath[1] != (FolderSeparator + TmpFolderName + FolderSeparator)[1];
  }

  /** Before the sweep nothing is removed; after it, exactly the rows the
      `%/tmp` pattern matched are gone. */
  lemma SweepBounds(rows: seq<Row>)
    ensures WithoutPaths(rows, []) == rows
    ensures WithoutPaths(rows, TmpPaths(rows)) == NonTmpRows(rows)
  {
    FilterAll(rows, (x: Row) => x.filepath !in []);
    var paths := TmpPaths(rows);
    var t := TmpRows(rows);
    forall x | x in rows ensures (x.filepath !in paths) == !IsTmpRow(x) {
      if IsTmpRow(x) {
        FilterKeeps(rows, (x: Row) => IsTmpRow(x), x);
        var a :| 0 <= a < |t| && t[a] == x;
        assert paths[a] == x.filepath;
      }
      if x.filepath in paths {
        var a :| 0 <= a < |paths| && paths[a] == x.filepath;
        assert t[a] in t;
      }
    }
    FilterExt(rows, (x: Row) => x.filepath !in paths, (x: Row) => !IsTmpRow(x));
  }
}
