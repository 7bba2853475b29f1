// utils.py: the sliding-window chunker, the text hash and the extension
// rules shared by the indexer.

module Utils {
  import opened PyText

  newtype byte = x: int | 0 <= x < 256

  /** A SHA-256 digest: 32 bytes. */
  type Digest = d: seq<byte> | |d| == 32 witness seq(32, _ => 0)

  // ---------------------------------------------------------------------------
  // chunk_text

  /** Start offset of chunk `k`, as the loop computes it: `i` starts at 0
      and `i += chunk_size - overlap` runs once per chunk, with no guard on
      the sign of the step. */
  function ChunkStart(k: int, size: int, overlap: int): int
    decreases k
  {
    if k <= 0 then 0 else ChunkStart(k - 1, size, overlap) + size - overlap
  }

  lemma {:induction false} ChunkStartIsMultiple(k: nat, size: int, overlap: int)
    ensures ChunkStart(k, size, overlap) == k * (size - overlap)
  {
    if k > 0 {
      ChunkStartIsMultiple(k - 1, size, overlap);
      assert k * (size - overlap) == (k - 1) * (size - overlap) + (size - overlap);
    }
  }

  /** The number of loop iterations: the least `k` with `k * step >= n`. */
  function ChunkCount(n: nat, step: int): nat
    requires step > 0
  {
    (n + step - 1) / step
  }

  /** Chunk `k`: `text[start : start + chunk_size]`. */
  function Window(text: string, k: int, size: int, overlap: int): string {
    PySlice(text, ChunkStart(k, size, overlap), ChunkStart(k, size, overlap) + size)
  }

  /** The chunks in closed form: `ceil(n / step)` windows. */
  function Chunks(text: string, size: int, overlap: int): seq<string>
    requires overlap < size
  {
    seq(ChunkCount(|text|, size - overlap), k => Window(text, k, size, overlap))
  }

  /** With `overlap >= chunk_size` the index never moves forward, so for any
      non-empty text the loop guard `i < n` still holds after every number
      of iterations: `chunk_text` does not terminate. */
  lemma {:induction false} OverlapTooLargeNeverTerminates(n: int, size: int, overlap: int, k: nat)
    requires overlap >= size
    requires n > 0
    ensures ChunkStart(k, size, overlap) <= 0 < n
  {
    if k > 0 {
      OverlapTooLargeNeverTerminates(n, size, overlap, k - 1);
    }
  }

  /** `chunk_text(text, chunk_size, overlap)`. The caller must keep
      `overlap < chunk_size`; otherwise the source loops forever (see
      `OverlapTooLargeNeverTerminates`). */
  method ChunkText(text: string, chunkSize: int, overlap: int) returns (chunks: seq<string>)
    requires overlap < chunkSize
    ensures chunks == Chunks(text, chunkSize, overlap)
  {
    if text == "" {
      LoopExitCount(0, chunkSize, overlap, 0);
      return [];
    }
    chunks := [];
    var i := 0;
    var n := |text|;
    while i < n
      invariant i == ChunkStart(|chunks|, chunkSize, overlap)
      invariant |chunks| == 0 || ChunkStart(|chunks| - 1, chunkSize, overlap) < n
      invariant chunks == Windows(text, |chunks|, chunkSize, overlap)
      decreases n - i
    {
      ghost var k := |chunks|;
      chunks := chunks + [PySlice(text, i, i + chunkSize)];
      i := i + chunkSize - overlap;
      assert i == ChunkStart(k + 1, chunkSize, overlap);
    }
    LoopExitCount(n, chunkSize, overlap, |chunks|);
    WindowsAreChunks(text, chunkSize, overlap);
  }

  /** The first `m` windows, in order: what the loop has appended after `m`
      iterations. */
  function Windows(text: string, m: nat, size: int, overlap: int): (r: seq<string>)
    ensures |r| == m
  {
    if m == 0 then [] else Windows(text, m - 1, size, overlap) + [Window(text, m - 1, size, overlap)]
  }

  lemma {:induction false} WindowsAt(text: string, m: nat, size: int, overlap: int)
    ensures forall k :: 0 <= k < m ==> Windows(text, m, size, overlap)[k] == Window(text, k, size, overlap)
  {
    if m > 0 {
      WindowsAt(text, m - 1, size, overlap);
    }
  }

  /** After `ceil(n / step)` iterations the loop has produced `Chunks`. */
  lemma WindowsAreChunks(text: string, size: int, overlap: int)
    requires overlap < size
    ensures Windows(text, ChunkCount(|text|, size - overlap), size, overlap) == Chunks(text, size, overlap)
  {
    WindowsAt(text, ChunkCount(|text|, size - overlap), size, overlap);
  }

  /** The loop stops after exactly `ceil(n / step)` iterations. */
  lemma LoopExitCount(n: nat, size: int, overlap: int, k: nat)
    requires overlap < size
    requires ChunkStart(k, size, overlap) >= n
    requires k == 0 || ChunkStart(k - 1, size, overlap) < n
    ensures k == ChunkCount(n, size - overlap)
  {
    ChunkStartIsMultiple(k, size, overlap);
    if k > 0 {
      ChunkStartIsMultiple(k - 1, size, overlap);
    }
    CeilDivUnique(n, size - overlap, k);
  }

  lemma MulMono(a: int, b: int, step: int)
    requires a <= b && step > 0
    ensures a * step <= b * step
  {
    assert b * step - a * step == (b - a) * step;
  }

  /** The number of chunks is `ceil(n / step)`: it is the least `k` whose
      `k * step` reaches `n`. */
  lemma CeilDivUnique(n: nat, step: int, k: nat)
    requires step > 0
    requires k * step >= n
    requires k == 0 || (k - 1) * step < n
    ensures k == ChunkCount(n, step)
  {
    var m := n + step - 1;
    var q := m / step;
    assert q * step <= m < q * step + step;
    if k > 0 {
      assert k * step == (k - 1) * step + step;
    }
    assert k * step <= m;
    assert (q + 1) * step == q * step + step;
    assert (k + 1) * step == k * step + step;
    if q < k {
      MulMono(q + 1, k, step);
      assert false;
    } else if q > k {
      MulMono(k + 1, q, step);
      assert false;
    }
  }

  /** A chunk index below the count starts inside the text. */
  lemma ChunkStartsInside(n: nat, size: int, overlap: int, k: nat)
    requires overlap < size
    requires k < ChunkCount(n, size - overlap)
    ensures 0 <= ChunkStart(k, size, overlap) < n
  {
    var step := size - overlap;
    var q := ChunkCount(n, step);
    MulMono(k + 1, q, step);
    assert q * step <= n + step - 1;
    assert (k + 1) * step == k * step + step;
    ChunkStartIsMultiple(k, size, overlap);
  }

  /** Chunk `k` is exactly `text[k*step : min(k*step + size, n)]`, is
      non-empty and at most `size` long, and is full-size when it does not
      reach the end of the text. */
  lemma {:induction false} ChunkIsWindow(text: string, size: int, overlap: int, k: nat)
    requires 0 <= overlap < size
    requires k < |Chunks(text, size, overlap)|
    ensures var start := ChunkStart(k, size, overlap);
            && 0 <= start < |text|
            && Chunks(text, size, overlap)[k] == text[start..Min(start + size, |text|)]
            && 0 < |Chunks(text, size, overlap)[k]| <= size
            && (start + size <= |text| ==> |Chunks(text, size, overlap)[k]| == size)
  {
    ChunkStartsInside(|text|, size, overlap, k);
  }

  /** The chunk windows tile the text: the first starts at 0, each next one
      starts no later than the previous one ends, and the last one ends at
      the end of the text. */
  lemma {:induction false} ChunksAreContiguous(text: string, size: int, overlap: int)
    requires 0 <= overlap < size
    requires text != ""
    ensures |Chunks(text, size, overlap)| >= 1
    ensures ChunkStart(0, size, overlap) == 0
    ensures forall k :: 0 <= k < |Chunks(text, size, overlap)| - 1 ==>
              ChunkStart(k + 1, size, overlap) <= Min(ChunkStart(k, size, overlap) + size, |text|)
    ensures var last := |Chunks(text, size, overlap)| - 1;
            Min(ChunkStart(last, size, overlap) + size, |text|) == |text|
  {
    var n, step := |text|, size - overlap;
    var q := ChunkCount(n, step);
    assert q * step > n - 1 by {
      assert q * step > n + step - 1 - step;
    }
    assert q >= 1;
    forall k | 0 <= k < q - 1
      ensures ChunkStart(k + 1, size, overlap) <= Min(ChunkStart(k, size, overlap) + size, n)
    {
      ChunkStartsInside(n, size, overlap, k + 1);
    }
    ChunkStartIsMultiple(q, size, overlap);
  }

  /** Every index of the text lies in some chunk's window. */
  lemma {:induction false} ChunksCover(text: string, size: int, overlap: int, j: int)
    requires 0 <= overlap < size
    requires 0 <= j < |text|
    ensures exists k :: 0 <= k < |Chunks(text, size, overlap)| &&
              ChunkStart(k, size, overlap) <= j < ChunkStart(k, size, overlap) + size
  {
    var step := size - overlap;
    var k := j / step;
    assert k * step <= j < k * step + step;
    var q := ChunkCount(|text|, step);
    assert q * step > |text| + step - 1 - step;
    if k >= q {
      MulMono(q, k, step);
      assert false;
    }
    ChunkStartIsMultiple(k, size, overlap);
  }

  /** `chunk_text("")` is `[]`. */
  lemma EmptyTextHasNoChunks(size: int, overlap: int)
    requires overlap < size
    ensures Chunks("", size, overlap) == []
  {
    var step := size - overlap;
    assert (step - 1) / step == 0;
  }

  /** The indexer's default configuration on a 2500-character text: three
      windows [0,1200), [1000,2200) and [2000,2500). */
  lemma DefaultConfigurationExample(text: string)
    requires |text| == 2500
    ensures Chunks(text, 1200, 200) == [text[0..1200], text[1000..2200], text[2000..2500]]
  {
    assert ChunkCount(2500, 1000) == 3;
    assert ChunkStart(1, 1200, 200) == 1000;
    assert ChunkStart(2, 1200, 200) == 2000;
    assert Window(text, 0, 1200, 200) == text[0..1200];
    assert Window(text, 1, 1200, 200) == text[1000..2200];
    assert Window(text, 2, 1200, 200) == text[2000..2500];
  }

  // ---------------------------------------------------------------------------
  // sha256_of_text

  function HexChar(v: int): char
    requires 0 <= v < 16
  {
    if v < 10 then ('0' as int + v) as char else ('a' as int + v - 10) as char
  }

  function HexValue(c: char): Option<int> {
    if '0' <= c <= '9' then Some(c as int - '0' as int)
    else if 'a' <= c <= 'f' then Some(c as int - 'a' as int + 10)
    else None
  }

  /** `bytes.hex()`: two lower-case hexadecimal digits per byte. */
  function Hex(d: seq<byte>): (r: string)
    ensures |r| == 2 * |d|
  {
    if d == [] then "" else HexPair(d[0]) + Hex(d[1..])
  }

  function HexPair(b: byte): (r: string)
    ensures |r| == 2
  {
    [HexChar(b as int / 16), HexChar(b as int % 16)]
  }

  function Unhex(s: string): Option<seq<byte>>
    decreases |s|
  {
    if |s| < 2 then (if s == [] then Some([]) else None)
    else
      var hi, lo, rest := HexValue(s[0]), HexValue(s[1]), Unhex(s[2..]);
      if hi.Some? && lo.Some? && rest.Some? && 0 <= hi.value * 16 + lo.value < 256
      then Some([(hi.value * 16 + lo.value) as byte] + rest.value)
      else None
  }

  lemma HexDigitRoundTrip(v: int)
    requires 0 <= v < 16
    ensures HexValue(HexChar(v)) == Some(v)
  {
  }

  lemma UnhexCons(b: byte, s: string)
    requires Unhex(s).Some?
    ensures Unhex(HexPair(b) + s) == Some([b] + Unhex(s).value)
  {
    var t := HexPair(b) + s;
    assert t[2..] == s;
    HexDigitRoundTrip(b as int / 16);
    HexDigitRoundTrip(b as int % 16);
    assert ((b as int / 16) * 16 + b as int % 16) as byte == b;
  }

  lemma {:induction false} UnhexHex(d: seq<byte>)
    ensures Unhex(Hex(d)) == Some(d)
  {
    if d != [] {
      UnhexHex(d[1..]);
      UnhexCons(d[0], Hex(d[1..]));
      assert d == [d[0]] + d[1..];
    }
  }

  /** `sha256_of_text(text)`: the hex digest of SHA-256 over the UTF-8
      bytes of `text`; `sha256` stands for that (uninterpreted) digest. */
  function Sha256OfText(text: string, sha256: string -> Digest): (r: string)
    ensures |r| == 64
  {
    Hex(sha256(text))
  }

  /** Two texts with the same stored hash string have the same digest: the
      hex form loses nothing. */
  lemma SameHashSameDigest(a: string, b: string, sha256: string -> Digest)
    requires Sha256OfText(a, sha256) == Sha256OfText(b, sha256)
    ensures sha256(a) == sha256(b)
  {
    UnhexHex(sha256(a));
    UnhexHex(sha256(b));
  }

  // ---------------------------------------------------------------------------
  // Extensions (os.path.splitext with Windows separators)

  predicate IsSep(c: char) { c == '/' || c == '\\' }

  /** `os.path.splitext(path)[1]`: from the last dot of the last path
      component, unless everything before that dot in the component is dots. */
  function Ext(p: string): (r: string)
    ensures r == "" || (r[0] == '.' && EndsWith(p, r))
  {
    var sepIndex := Max(RFind(p, '/'), RFind(p, '\\'));
    var dotIndex := RFind(p, '.');
    if dotIndex > sepIndex && exists k | sepIndex + 1 <= k < dotIndex :: p[k] != '.'
    then p[dotIndex..]
    else ""
  }

  /** A path ending in `stem` + `e`, where `e` is a dot followed by
      characters other than dots and separators and the stem's last
      character is neither, has extension `e`. */
  lemma {:induction false} ExtOfSuffix(stem: string, e: string)
    requires stem != [] && stem[|stem| - 1] != '.' && !IsSep(stem[|stem| - 1])
    requires |e| >= 1 && e[0] == '.'
    requires forall i :: 1 <= i < |e| ==> e[i] != '.' && !IsSep(e[i])
    ensures Ext(stem + e) == e
  {
    var p := stem + e;
    var d := |stem|;
    assert p[d] == '.';
    assert forall k :: d < k < |p| ==> p[k] == e[k - d];
    var dotIndex := RFind(p, '.');
    assert dotIndex == d;
    var sepIndex := Max(RFind(p, '/'), RFind(p, '\\'));
    assert p[d - 1] == stem[d - 1];
    assert sepIndex < d - 1;
    assert p[d - 1] != '.';
    assert p[dotIndex..] == e;
  }

  const TEXT_EXTENSIONS: seq<string> := [".txt", ".md", ".py", ".js", ".json", ".csv", ".html"]

  /** `is_text_file(path)`. `mime` is what `magic.from_file` returned, or
      `None` when it raised and the extension fallback is used. */
  function IsTextFile(path: string, mime: Option<string>): (r: bool)
    ensures mime.Some? && StartsWith(mime.value, "text/") ==> r
    ensures mime == Some("") ==> !r
    ensures mime.None? && r ==> Ext(path) != ""
  {
    match mime
    case Some(m) => m != "" && (StartsWith(m, "text/") || Contains(m, "xml") || Contains(m, "json"))
    case None => Lower(Ext(path)) in TEXT_EXTENSIONS
  }

  /** The extension fallback ignores case: a file whose name ends in `e`
      is a text file exactly when `e` lower-cased is one of the seven
      listed extensions. */
  lemma FallbackIgnoresCase(stem: string, e: string)
    requires stem != [] && stem[|stem| - 1] != '.' && !IsSep(stem[|stem| - 1])
    requires |e| >= 1 && e[0] == '.'
    requires forall i :: 1 <= i < |e| ==> e[i] != '.' && !IsSep(e[i])
    ensures IsTextFile(stem + e, None) <==> Lower(e) in TEXT_EXTENSIONS
  {
    ExtOfSuffix(stem, e);
  }
}
