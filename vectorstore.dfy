// vectorstore.py: the `vectors` table, its float32 blob encoding and the
// exact top-k cosine search over every stored row.

module Store {
  import opened PyText
  import opened Ranking
  import opened Utils

  /** A float32 value, as its IEEE-754 bit pattern read as an unsigned
      32-bit integer. */
  newtype Float32 = x: int | 0 <= x < 0x1_0000_0000

  type Vector = seq<Float32>

  // ---------------------------------------------------------------------------
  // to_bytes / from_bytes: 4 little-endian bytes per element

  function F32Bytes(x: Float32): (r: seq<byte>)
    ensures |r| == 4
  {
    var q0 := x as int / 256;
    var q1 := q0 / 256;
    var q2 := q1 / 256;
    [(x as int % 256) as byte, (q0 % 256) as byte, (q1 % 256) as byte, q2 as byte]
  }

  function F32FromBytes(b: seq<byte>): Float32
    requires |b| == 4
  {
    (b[0] as int + 256 * b[1] as int + 65536 * b[2] as int + 16777216 * b[3] as int) as Float32
  }

  /** `to_bytes(vec)`: the raw float32 buffer. */
  function ToBytes(v: Vector): (r: seq<byte>)
    ensures |r| == 4 * |v|
  {
    if v == [] then [] else F32Bytes(v[0]) + ToBytes(v[1..])
  }

  /** `from_bytes(b)`: `np.frombuffer(b, dtype="float32")`, which raises
      (`None` here) when the length is not a multiple of 4. */
  function FromBytes(b: seq<byte>): (r: Option<Vector>)
    ensures r.Some? <==> |b| % 4 == 0
    ensures r.Some? ==> 4 * |r.value| == |b|
    decreases |b|
  {
    if b == [] then Some([])
    else if |b| < 4 then None
    else match FromBytes(b[4..])
      case None => None
      case Some(rest) => Some([F32FromBytes(b[..4])] + rest)
  }

  lemma F32RoundTrip(x: Float32)
    ensures F32FromBytes(F32Bytes(x)) == x
  {
    var v := x as int;
    var q0 := v / 256;
    var q1 := q0 / 256;
    var q2 := q1 / 256;
    assert v == v % 256 + 256 * q0;
    assert q0 == q0 % 256 + 256 * q1;
    assert q1 == q1 % 256 + 256 * q2;
    var b := F32Bytes(x);
    assert b[0] as int == v % 256 && b[1] as int == q0 % 256;
    assert b[2] as int == q1 % 256 && b[3] as int == q2;
  }

  /** `from_bytes(to_bytes(v))` gives back `v` element for element. */
  lemma {:induction false} FromBytesToBytes(v: Vector)
    ensures FromBytes(ToBytes(v)) == Some(v)
  {
    if v != [] {
      var b := ToBytes(v);
      assert b[..4] == F32Bytes(v[0]);
      assert b[4..] == ToBytes(v[1..]);
      FromBytesToBytes(v[1..]);
      F32RoundTrip(v[0]);
      assert v == [v[0]] + v[1..];
    }
  }

  /** A buffer whose length is not a multiple of 4 does not decode, and one
      that decodes holds 4 bytes per element. */
  lemma {:induction false} FromBytesLength(b: seq<byte>)
    ensures FromBytes(b).Some? <==> |b| % 4 == 0
    ensures FromBytes(b).Some? ==> 4 * |FromBytes(b).value| == |b|
    decreases |b|
  {
    if |b| >= 4 {
      FromBytesLength(b[4..]);
    }
  }

  // ---------------------------------------------------------------------------
  // Rows

  /** One row of the `vectors` table. The embedding is the stored blob. */
  datatype VectorRow = VectorRow(
    id: int, path: string, source: string, content: string,
    embedding: seq<byte>, timestamp: real, sha256: string, metadata: string)

  /** The metadata argument of `upsert`: a dictionary of JSON values, here
      with values already rendered. */
  type Metadata = map<string, string>

  /** Row ids are unique and, since a scan returns rows in rowid order, the
      table's order is increasing id order. */
  ghost predicate IdsIncreasing(rows: seq<VectorRow>) {
    forall i, j :: 0 <= i < j < |rows| ==> rows[i].id < rows[j].id
  }

  ghost predicate IdsPositive(rows: seq<VectorRow>) {
    forall i :: 0 <= i < |rows| ==> rows[i].id >= 1
  }

  /** The rowid SQLite gives an insert without an explicit id: one more than
      the largest rowid in the table, or 1 when the table is empty. */
  function NextRowId(rows: seq<VectorRow>): int {
    if rows == [] then 1 else rows[|rows| - 1].id + 1
  }

  /** `json.dumps(metadata or {})`: `None` and the empty dictionary are both
      stored as `{}`; `dumps` stands for `json.dumps` on a non-empty one. */
  function SerializeMetadata(m: Option<Metadata>, dumps: Metadata -> string): (r: string)
    ensures m.None? || m.value == map[] ==> r == "{}"
    ensures m.Some? && m.value != map[] ==> r == dumps(m.value)
  {
    if m.None? || m.value == map[] then "{}" else dumps(m.value)
  }

  /** The table after `INSERT OR REPLACE ... VALUES (...)` without an id.
      The table has no UNIQUE constraint on `path`, so nothing is replaced:
      the new row is appended. */
  function Inserted(rows: seq<VectorRow>, path: string, source: string, content: string,
                    vector: Vector, timestamp: real, sha256: string, metadata: string): (r: seq<VectorRow>)
    ensures |r| == |rows| + 1 && r[..|rows|] == rows
    ensures r[|rows|].path == path && r[|rows|].content == content && r[|rows|].embedding == ToBytes(vector)
  {
    rows + [VectorRow(NextRowId(rows), path, source, content, ToBytes(vector), timestamp, sha256, metadata)]
  }

  function CountPath(rows: seq<VectorRow>, p: string): nat {
    if rows == [] then 0 else (if rows[0].path == p then 1 else 0) + CountPath(rows[1..], p)
  }

  lemma {:induction false} CountPathSnoc(rows: seq<VectorRow>, r: VectorRow, p: string)
    ensures CountPath(rows + [r], p) == CountPath(rows, p) + (if r.path == p then 1 else 0)
  {
    if rows != [] {
      assert (rows + [r])[1..] == rows[1..] + [r];
      CountPathSnoc(rows[1..], r, p);
    }
  }

  /** `upsert` adds exactly one row carrying the given fields, with an id
      above every existing one, and leaves every earlier row, including
      rows for the same path, as it was: two upserts of one path leave two
      rows for it. */
  lemma InsertedAddsOneRow(rows: seq<VectorRow>, path: string, source: string, content: string,
                           vector: Vector, timestamp: real, sha256: string, metadata: string)
    requires IdsIncreasing(rows) && IdsPositive(rows)
    ensures var r := Inserted(rows, path, source, content, vector, timestamp, sha256, metadata);
            && |r| == |rows| + 1
            && r[..|rows|] == rows
            && IdsIncreasing(r) && IdsPositive(r)
            && r[|rows|].path == path && r[|rows|].source == source && r[|rows|].content == content
            && r[|rows|].timestamp == timestamp && r[|rows|].sha256 == sha256 && r[|rows|].metadata == metadata
            && FromBytes(r[|rows|].embedding) == Some(vector)
            && CountPath(r, path) == CountPath(rows, path) + 1
  {
    var r := Inserted(rows, path, source, content, vector, timestamp, sha256, metadata);
    FromBytesToBytes(vector);
    CountPathSnoc(rows, r[|rows|], path);
    assert r == rows + [r[|rows|]];
  }

  /** The table after `DELETE FROM vectors WHERE path=?`. */
  function WithoutPath(rows: seq<VectorRow>, p: string): (r: seq<VectorRow>)
    ensures |r| <= |rows|
    ensures forall i :: 0 <= i < |r| ==> r[i].path != p
  {
    if rows == [] then []
    else if rows[0].path == p then WithoutPath(rows[1..], p)
    else [rows[0]] + WithoutPath(rows[1..], p)
  }

  /** `delete_by_path(p)` removes every row whose path is `p` and keeps
      every other row, in order, so ids stay increasing. */
  lemma {:induction false} WithoutPathRemovesExactly(rows: seq<VectorRow>, p: string)
    ensures forall r :: r in WithoutPath(rows, p) <==> r in rows && r.path != p
    ensures |WithoutPath(rows, p)| == |rows| - CountPath(rows, p)
  {
    if rows != [] {
      WithoutPathRemovesExactly(rows[1..], p);
      assert forall r :: r in rows <==> r == rows[0] || r in rows[1..];
    }
  }

  /** Deleting rows keeps the survivors' ids increasing and positive. */
  lemma {:induction false} WithoutPathKeepsIds(rows: seq<VectorRow>, p: string)
    requires IdsIncreasing(rows) && IdsPositive(rows)
    ensures IdsIncreasing(WithoutPath(rows, p)) && IdsPositive(WithoutPath(rows, p))
  {
    if rows != [] {
      WithoutPathKeepsIds(rows[1..], p);
      if rows[0].path != p {
        HeadBelowSurvivors(rows, p);
        assert WithoutPath(rows, p) == [rows[0]] + WithoutPath(rows[1..], p);
      }
    }
  }

  /** In a table with increasing ids, the first row's id is below the id of
      every row that survives deleting `p` from the rest. */
  lemma HeadBelowSurvivors(rows: seq<VectorRow>, p: string)
    requires rows != [] && IdsIncreasing(rows)
    ensures forall j :: 0 <= j < |WithoutPath(rows[1..], p)| ==> rows[0].id < WithoutPath(rows[1..], p)[j].id
  {
    var tail := WithoutPath(rows[1..], p);
    WithoutPathRemovesExactly(rows[1..], p);
    forall j | 0 <= j < |tail| ensures rows[0].id < tail[j].id {
      assert tail[j] in rows[1..];
      var m :| 0 <= m < |rows| - 1 && rows[1..][m] == tail[j];
      assert rows[m + 1] == tail[j];
    }
  }

  /** Deleting a path that no row has changes nothing. */
  lemma {:induction false} WithoutAbsentPath(rows: seq<VectorRow>, p: string)
    requires forall i :: 0 <= i < |rows| ==> rows[i].path != p
    ensures WithoutPath(rows, p) == rows
  {
    if rows != [] {
      WithoutAbsentPath(rows[1..], p);
    }
  }

  // ---------------------------------------------------------------------------
  // search

  /** One search result: the score and the row's id, path, content and
      timestamp. */
  datatype Hit = Hit(score: real, id: int, path: string, content: string, timestamp: real)

  function HitScore(h: Hit): real { h.score }

  /** Why `search` raises: a blob that is not a float32 buffer, stored
      vectors of different lengths (`np.vstack`), or a query whose length
      differs from theirs (`mat @ q`). */
  datatype SearchError = MalformedBlob | RaggedMatrix | DimensionMismatch

  /** Every element is +0.0 or -0.0, so the vector's norm is 0. */
  predicate IsZero(v: Vector) {
    forall i :: 0 <= i < |v| ==> v[i] % 0x8000_0000 == 0
  }

  /** The score of a stored vector `v` against the query `q`. `cosine`
      stands for the floating-point `dot(q, v) / (|q| * |v|)` on non-zero
      vectors; when either vector is zero the numerator is 0 and the
      denominator is floored to 1e-12, so the score is 0. */
  function Score(q: Vector, v: Vector, cosine: (Vector, Vector) -> real): (r: real)
    ensures IsZero(q) || IsZero(v) ==> r == 0.0
  {
    if IsZero(q) || IsZero(v) then 0.0 else cosine(q, v)
  }

  /** `all_embeddings()`: every row's blob decoded, in table order. */
  function DecodeAll(rows: seq<VectorRow>): (r: Result<seq<Vector>, SearchError>)
    ensures r.Ok? ==> |r.value| == |rows|
    ensures r.Ok? ==> forall i :: 0 <= i < |rows| ==> FromBytes(rows[i].embedding) == Some(r.value[i])
    ensures r.Err? <==> exists i :: 0 <= i < |rows| && FromBytes(rows[i].embedding).None?
  {
    if rows == [] then Ok([])
    else match FromBytes(rows[0].embedding)
      case None => Err(MalformedBlob)
      case Some(v) =>
        match DecodeAll(rows[1..])
        case Err(e) =>
          var i :| 0 <= i < |rows| - 1 && FromBytes(rows[1..][i].embedding).None?;
          assert FromBytes(rows[i + 1].embedding).None?;
          Err(e)
        case Ok(vs) =>
          assert forall i :: 1 <= i < |rows| ==> rows[i] == rows[1..][i - 1];
          Ok([v] + vs)
  }

  /** One element of `all_embeddings()`. */
  datatype StoredVector = StoredVector(id: int, path: string, content: string, vec: Vector, timestamp: real)

  /** The hit for each row, in table order, before ranking. */
  function AllHits(rows: seq<VectorRow>, vecs: seq<Vector>, q: Vector, cosine: (Vector, Vector) -> real): (r: seq<Hit>)
    requires |vecs| == |rows|
    ensures |r| == |rows|
  {
    seq(|rows|, i requires 0 <= i < |rows| =>
      Hit(Score(q, vecs[i], cosine), rows[i].id, rows[i].path, rows[i].content, rows[i].timestamp))
  }

  predicate SameLength(vecs: seq<Vector>, d: int) {
    forall i :: 0 <= i < |vecs| ==> |vecs[i]| == d
  }

  /** `search(query_vector, top_k)` over the rows of the table: score every
      row, order by score, largest first, and keep `[:top_k]`. */
  function SearchRows(rows: seq<VectorRow>, q: Vector, topK: int,
                      cosine: (Vector, Vector) -> real): (r: Result<seq<Hit>, SearchError>)
    ensures r.Err? ==> rows != []
  {
    if rows == [] then Ok([])
    else match DecodeAll(rows)
      case Err(e) => Err(e)
      case Ok(vecs) =>
        if !SameLength(vecs, |vecs[0]|) then Err(RaggedMatrix)
        else if |q| != |vecs[0]| then Err(DimensionMismatch)
        else Ok(PySlice(SortDesc(AllHits(rows, vecs, q, cosine), HitScore), 0, topK))
  }

  /** `search` on an empty table returns `[]`. */
  lemma SearchEmptyTable(q: Vector, topK: int, cosine: (Vector, Vector) -> real)
    ensures SearchRows([], q, topK, cosine) == Ok([])
  {
  }

  /** `search` fails exactly when a blob does not decode, the stored vectors
      differ in length, or the query's length differs from theirs. */
  lemma SearchFailsIff(rows: seq<VectorRow>, q: Vector, topK: int, cosine: (Vector, Vector) -> real)
    requires rows != []
    ensures SearchRows(rows, q, topK, cosine).Err? <==>
              (exists i :: 0 <= i < |rows| && FromBytes(rows[i].embedding).None?)
              || !SameLength(DecodeAll(rows).value, |DecodeAll(rows).value[0]|)
              || |q| != |DecodeAll(rows).value[0]|
  {
  }

  /** A successful search returns `min(N, top_k)` hits for `top_k >= 0`
      (Python's `[:top_k]` drops `-top_k` hits from the end otherwise), in
      non-increasing score order; the hits are drawn from the rows' own
      hits, each row at most once; and no row left out has a strictly
      higher score than a row returned. */
  lemma {:induction false} SearchIsTopK(rows: seq<VectorRow>, q: Vector, topK: int,
                                        cosine: (Vector, Vector) -> real)
    requires rows != []
    requires SearchRows(rows, q, topK, cosine).Ok?
    ensures var r := SearchRows(rows, q, topK, cosine).value;
            var all := AllHits(rows, DecodeAll(rows).value, q, cosine);
            && |r| == (if topK >= 0 then Min(|rows|, topK) else Max(|rows| + topK, 0))
            && NonIncreasing(r, HitScore)
            && multiset(r) <= multiset(all)
            && (forall x, y :: x in r && y in multiset(all) - multiset(r) ==> x.score >= y.score)
  {
    var all := AllHits(rows, DecodeAll(rows).value, q, cosine);
    var k := if topK >= 0 then Min(|rows|, topK) else Max(|rows| + topK, 0);
    SearchIsSortedPrefix(rows, q, topK, cosine);
    TopOfSorted(all, HitScore, k);
    var r := SearchRows(rows, q, topK, cosine).value;
    forall x, y | x in r && y in multiset(all) - multiset(r)
      ensures x.score >= y.score
    {
      assert HitScore(x) >= HitScore(y);
    }
  }

  /** A successful search returns the first `k` hits in score order, `k`
      being what Python's `[:top_k]` keeps of `len(rows)` items. */
  lemma SearchIsSortedPrefix(rows: seq<VectorRow>, q: Vector, topK: int,
                             cosine: (Vector, Vector) -> real)
    ensures rows != [] && SearchRows(rows, q, topK, cosine).Ok? ==>
              && DecodeAll(rows).Ok?
              && var all := AllHits(rows, DecodeAll(rows).value, q, cosine);
                 var k := if topK >= 0 then Min(|rows|, topK) else Max(|rows| + topK, 0);
                 && k <= |SortDesc(all, HitScore)|
                 && SearchRows(rows, q, topK, cosine).value == SortDesc(all, HitScore)[..k]
  {
  }

  /** Each hit of a successful search is the hit of one stored row: that
      row's score paired with that row's id, path, content and timestamp. */
  lemma SearchHitsComeFromRows(rows: seq<VectorRow>, q: Vector, topK: int,
                               cosine: (Vector, Vector) -> real, h: Hit)
    requires rows != []
    requires SearchRows(rows, q, topK, cosine).Ok?
    requires h in SearchRows(rows, q, topK, cosine).value
    ensures exists i :: 0 <= i < |rows| && h.id == rows[i].id && h.path == rows[i].path
              && h.content == rows[i].content && h.timestamp == rows[i].timestamp
              && h.score == Score(q, DecodeAll(rows).value[i], cosine)
  {
    SearchIsTopK(rows, q, topK, cosine);
    assert h in multiset(SearchRows(rows, q, topK, cosine).value);
    HitOfRow(rows, DecodeAll(rows).value, q, cosine, h);
  }

  /** A hit among the rows' hits is the hit of one of the rows. */
  lemma HitOfRow(rows: seq<VectorRow>, vecs: seq<Vector>, q: Vector, cosine: (Vector, Vector) -> real, h: Hit)
    requires |vecs| == |rows|
    requires h in multiset(AllHits(rows, vecs, q, cosine))
    ensures exists i :: 0 <= i < |rows| && h.id == rows[i].id && h.path == rows[i].path
              && h.content == rows[i].content && h.timestamp == rows[i].timestamp
              && h.score == Score(q, vecs[i], cosine)
  {
    var all := AllHits(rows, vecs, q, cosine);
    var i :| 0 <= i < |all| && all[i] == h;
  }

  /** A zero query scores every row 0. */
  lemma ZeroQueryScoresZero(rows: seq<VectorRow>, q: Vector, topK: int,
                            cosine: (Vector, Vector) -> real, h: Hit)
    requires IsZero(q)
    requires rows != []
    requires SearchRows(rows, q, topK, cosine).Ok?
    requires h in SearchRows(rows, q, topK, cosine).value
    ensures h.score == 0.0
  {
    SearchHitsComeFromRows(rows, q, topK, cosine, h);
  }

  // ---------------------------------------------------------------------------
  // The store object

  class VectorStore {
    var rows: seq<VectorRow>

    ghost predicate Valid()
      reads this
    {
      IdsIncreasing(rows) && IdsPositive(rows)
    }

    constructor ()
      ensures Valid() && rows == []
    {
      rows := [];
    }

    /** `upsert(...)`. `fault` is the error the database raised, if any;
        then nothing is written and the error is returned. */
    method Upsert(path: string, source: string, content: string, vector: Vector, timestamp: real,
                  sha256: string, metadata: Option<Metadata>, dumps: Metadata -> string,
                  fault: Option<string>)
      returns (err: Option<string>)
      requires Valid()
      modifies this
      ensures Valid()
      ensures err == fault
      ensures rows == if fault.Some? then old(rows)
                      else Inserted(old(rows), path, source, content, vector, timestamp, sha256,
                                    SerializeMetadata(metadata, dumps))
    {
      if fault.Some? {
        return fault;
      }
      var meta := SerializeMetadata(metadata, dumps);
      InsertedAddsOneRow(rows, path, source, content, vector, timestamp, sha256, meta);
      rows := Inserted(rows, path, source, content, vector, timestamp, sha256, meta);
      err := None;
    }

    /** `delete_by_path(path)`. */
    method DeleteByPath(path: string)
      requires Valid()
      modifies this
      ensures Valid()
      ensures rows == WithoutPath(old(rows), path)
    {
      WithoutPathKeepsIds(rows, path);
      rows := WithoutPath(rows, path);
    }

    /** `all_embeddings()`: each row's id, path, content, decoded vector and
        timestamp, in table order; a blob that does not decode raises. */
    method AllEmbeddings() returns (r: Result<seq<StoredVector>, SearchError>)
      requires Valid()
      ensures r.Ok? ==> |r.value| == |rows|
      ensures r.Ok? ==> forall i :: 0 <= i < |rows| ==>
                r.value[i].id == rows[i].id && r.value[i].path == rows[i].path
                && r.value[i].content == rows[i].content && r.value[i].timestamp == rows[i].timestamp
                && FromBytes(rows[i].embedding) == Some(r.value[i].vec)
      ensures r.Err? <==> exists i :: 0 <= i < |rows| && FromBytes(rows[i].embedding).None?
    {
      var rs := rows;
      var d := DecodeAll(rs);
      match d
      case Err(e) => r := Err(e);
      case Ok(vecs) =>
        var entries := seq(|rs|, i requires 0 <= i < |rs| =>
          StoredVector(rs[i].id, rs[i].path, rs[i].content, vecs[i], rs[i].timestamp));
        r := Ok(entries);
    }

    /** `search(query_vector, top_k)`. */
    method Search(q: Vector, topK: int, cosine: (Vector, Vector) -> real)
      returns (r: Result<seq<Hit>, SearchError>)
      requires Valid()
      ensures rows == [] ==> r == Ok([])
      ensures r == SearchRows(rows, q, topK, cosine)
    {
      r := SearchRows(rows, q, topK, cosine);
    }
  }
}
