// llm_client.py: the shape of every embedding (always VECTOR_DIM float32
// values), the SHA-256 stub vector every failure falls back to, wrap-around
// padding of short provider vectors, and the backend choice of `generate`.

module LlmClient {
  import opened PyText
  import opened Utils
  import opened Store

  const VECTOR_DIM: nat := 3072

  // ---------------------------------------------------------------------------
  // float32 values of bytes

  function Pow2(n: nat): (r: nat)
    ensures r >= 1
  {
    if n == 0 then 1 else 2 * Pow2(n - 1)
  }

  lemma {:induction false} Pow2Add(a: nat, b: nat)
    ensures Pow2(a + b) == Pow2(a) * Pow2(b)
  {
    if a > 0 {
      Pow2Add(a - 1, b);
    }
  }

  lemma Pow2Small()
    ensures Pow2(1) == 2 && Pow2(2) == 4 && Pow2(3) == 8 && Pow2(4) == 16
    ensures Pow2(5) == 32 && Pow2(6) == 64 && Pow2(7) == 128 && Pow2(8) == 256
    ensures Pow2(23) == 8388608
  {
    assert Pow2(8) == 256;
    assert Pow2(16) == 65536 by { Pow2Add(8, 8); }
    assert Pow2(23) == 8388608 by { Pow2Add(16, 7); }
  }

  /** The position of the highest set bit of `v`. */
  function HighBit(v: int): (e: nat)
    requires 1 <= v < 256
    ensures e <= 7 && Pow2(e) <= v < 2 * Pow2(e)
  {
    Pow2Small();
    if v < 2 then 0 else 1 + HighBit(v / 2)
  }

  lemma MantissaBound(v: int, e: nat)
    requires e <= 7 && Pow2(e) <= v < 2 * Pow2(e)
    ensures 0 <= (v - Pow2(e)) * Pow2(23 - e) < 8388608
    ensures 8388608 + (v - Pow2(e)) * Pow2(23 - e) == v * Pow2(23 - e)
  {
    var a := Pow2(e);
    var p := Pow2(23 - e);
    Pow2Complement(e);
    MulDistrib(v, a, p);
    MulStrict(v - a, a, p);
  }

  lemma MulDistrib(x: int, y: int, p: int)
    ensures (x - y) * p == x * p - y * p
  {
  }

  lemma Pow2Complement(e: nat)
    requires e <= 23
    ensures Pow2(e) * Pow2(23 - e) == 8388608
  {
    Pow2Small();
    Pow2Add(e, 23 - e);
  }

  lemma MulStrict(x: int, y: int, p: int)
    requires 0 <= x < y && p >= 1
    ensures 0 <= x * p < y * p
  {
    assert y * p - x * p == (y - x) * p;
  }

  /** `np.uint8 -> float32`: the IEEE-754 single-precision bit pattern of a
      byte's value (exact, since every byte fits in the 24-bit significand). */
  function ByteToFloat32(b: byte): Float32 {
    var v := b as int;
    if v == 0 then 0
    else
      var e := HighBit(v);
      MantissaBound(v, e);
      ((127 + e) * 8388608 + (v - Pow2(e)) * Pow2(23 - e)) as Float32
  }

  /** 2^149, the scale of float32 subnormals. */
  const TWO_POW_149: real := 713623846352979940529142984724747568191373312.0

  /** The real number a float32 bit pattern denotes: sign, biased exponent
      and 23-bit fraction, normal and subnormal; `None` for infinities and
      NaNs. */
  function Float32Value(x: Float32): Option<real> {
    var bits := x as int;
    var sign := bits / 2147483648;
    var exp := (bits / 8388608) % 256;
    var frac := bits % 8388608;
    if exp == 255 then None
    else
      var mag :=
        if exp == 0 then (frac as real) / TWO_POW_149
        else if exp >= 150 then ((8388608 + frac) * Pow2(exp - 150)) as real
        else ((8388608 + frac) as real) / (Pow2(150 - exp) as real);
      Some(if sign == 1 then -mag else mag)
  }

  /** A pattern with sign 0, biased exponent `127 + e` and fraction `frac`
      denotes `(2^23 + frac) / 2^(23 - e)`. */
  lemma NormalValue(x: Float32, e: nat, frac: int)
    requires e <= 7 && 0 <= frac < 8388608
    requires x as int == (127 + e) * 8388608 + frac
    ensures Float32Value(x) == Some(((8388608 + frac) as real) / (Pow2(23 - e) as real))
  {
    var bits := x as int;
    assert bits / 2147483648 == 0;
    assert (bits / 8388608) % 256 == 127 + e;
    assert bits % 8388608 == frac;
  }

  lemma DivideOut(v: int, p: nat)
    requires p >= 1
    ensures ((v * p) as real) / (p as real) == v as real
  {
    assert (v * p) as real == (v as real) * (p as real);
  }

  lemma ZeroValue(x: Float32)
    requires x as int == 0
    ensures Float32Value(x) == Some(0.0)
  {
    assert (x as int / 8388608) % 256 == 0;
  }

  /** The float32 pattern of a byte denotes exactly that byte's value. */
  lemma ByteToFloat32Exact(b: byte)
    ensures Float32Value(ByteToFloat32(b)) == Some(b as int as real)
  {
    var v := b as int;
    if v == 0 {
      ZeroValue(ByteToFloat32(b));
    } else {
      var e := HighBit(v);
      MantissaBound(v, e);
      var p := Pow2(23 - e);
      var mant := (v - Pow2(e)) * p;
      var x := ByteToFloat32(b);
      assert x as int == (127 + e) * 8388608 + mant;
      NormalValue(x, e, mant);
      DivideOut(v, p);
      assert ((8388608 + mant) as real) / (p as real) == v as real;
    }
  }

  /** Distinct bytes give distinct float32 values. */
  lemma ByteToFloat32Injective(a: byte, b: byte)
    requires ByteToFloat32(a) == ByteToFloat32(b)
    ensures a == b
  {
    ByteToFloat32Exact(a);
    ByteToFloat32Exact(b);
  }

  // ---------------------------------------------------------------------------
  // Padding and the stub vector

  /** `np.pad(v, (0, n - len(v)), mode="wrap")`: `v` extended periodically
      to length `n`. */
  function WrapPad<T>(v: seq<T>, n: nat): (r: seq<T>)
    requires 0 < |v| <= n
    ensures |r| == n
    ensures forall i :: 0 <= i < n ==> r[i] == v[i % |v|]
  {
    seq(n, i requires 0 <= i < n => v[i % |v|])
  }

  /** `_stub_vector(text)`: the 32 digest bytes of the text as float32
      values, repeated to `VECTOR_DIM` entries. */
  function StubVector(text: string, sha256: string -> Digest): (r: Vector)
    ensures |r| == VECTOR_DIM
    ensures forall i :: 0 <= i < VECTOR_DIM ==> r[i] == ByteToFloat32(sha256(text)[i % 32])
  {
    var d := sha256(text);
    var arr := seq(32, i requires 0 <= i < 32 => ByteToFloat32(d[i]));
    WrapPad(arr, VECTOR_DIM)[..VECTOR_DIM]
  }

  /** Two texts get the same stub vector exactly when their digests
      agree. */
  lemma StubVectorDeterminedByDigest(a: string, b: string, sha256: string -> Digest)
    ensures StubVector(a, sha256) == StubVector(b, sha256) <==> sha256(a) == sha256(b)
  {
    if StubVector(a, sha256) == StubVector(b, sha256) {
      SameStubSameDigest(a, b, sha256);
    } else if sha256(a) == sha256(b) {
      SameDigestSameStub(a, b, sha256);
    }
  }

  lemma SameStubSameDigest(a: string, b: string, sha256: string -> Digest)
    requires StubVector(a, sha256) == StubVector(b, sha256)
    ensures sha256(a) == sha256(b)
  {
    var da, db := sha256(a), sha256(b);
    forall i | 0 <= i < 32 ensures da[i] == db[i] {
      StubEntry(a, sha256, i);
      StubEntry(b, sha256, i);
      ByteToFloat32Injective(da[i], db[i]);
    }
  }

  lemma StubEntry(a: string, sha256: string -> Digest, i: int)
    requires 0 <= i < 32
    ensures StubVector(a, sha256)[i] == ByteToFloat32(sha256(a)[i])
  {
    assert i % 32 == i;
  }

  lemma SameDigestSameStub(a: string, b: string, sha256: string -> Digest)
    requires sha256(a) == sha256(b)
    ensures StubVector(a, sha256) == StubVector(b, sha256)
  {
    var va, vb := StubVector(a, sha256), StubVector(b, sha256);
    forall i | 0 <= i < VECTOR_DIM ensures va[i] == vb[i] {
    }
  }

  /** Each entry of the stub vector denotes the value of its digest byte. */
  lemma StubVectorDenotesDigest(a: string, sha256: string -> Digest)
    ensures forall i :: 0 <= i < VECTOR_DIM ==>
              Float32Value(StubVector(a, sha256)[i]) == Some(sha256(a)[i % 32] as int as real)
  {
    forall i | 0 <= i < VECTOR_DIM
      ensures Float32Value(StubVector(a, sha256)[i]) == Some(sha256(a)[i % 32] as int as real)
    {
      ByteToFloat32Exact(sha256(a)[i % 32]);
    }
  }

  /** A provider vector made to length `VECTOR_DIM`: kept when it already
      has that length, wrap-padded when shorter; `np.pad` raises (`None`)
      for an empty vector and for a longer one, whose pad width is
      negative. */
  function ShapeProviderVector(v: seq<Float32>): (r: Option<Vector>)
    ensures r.Some? <==> 0 < |v| <= VECTOR_DIM
    ensures r.Some? ==> |r.value| == VECTOR_DIM
  {
    if |v| == VECTOR_DIM then Some(v)
    else if |v| == 0 || |v| > VECTOR_DIM then None
    else Some(WrapPad(v, VECTOR_DIM)[..VECTOR_DIM])
  }

  /** A provider vector of length `s` with `0 < s <= VECTOR_DIM` becomes one
      of length `VECTOR_DIM` whose entry `i` is `v[i mod s]` (so one of
      length `VECTOR_DIM` is kept unchanged); any other length is
      rejected. */
  lemma ShapeProviderVectorWraps(v: seq<Float32>)
    ensures ShapeProviderVector(v).Some? <==> 0 < |v| <= VECTOR_DIM
    ensures ShapeProviderVector(v).Some? ==>
              && |ShapeProviderVector(v).value| == VECTOR_DIM
              && forall i :: 0 <= i < VECTOR_DIM ==> ShapeProviderVector(v).value[i] == v[i % |v|]
    ensures |v| == VECTOR_DIM ==> ShapeProviderVector(v) == Some(v)
  {
    if |v| == VECTOR_DIM {
      forall i | 0 <= i < VECTOR_DIM ensures v[i] == v[i % |v|] { }
    }
  }

  // ---------------------------------------------------------------------------
  // embed

  /** The embedding of one text: the provider's vector shaped to
      `VECTOR_DIM` when the backend is "gemini" with genai usable and the
      call and padding succeed, the stub vector otherwise. `provider` gives
      the provider's vector for a text, or `None` when the call raises. */
  function EmbedOne(backend: string, genaiAvailable: bool, text: string,
                    provider: string -> Option<seq<Float32>>, sha256: string -> Digest): (r: Vector)
    ensures |r| == VECTOR_DIM
    ensures !(backend == "gemini" && genaiAvailable) ==> r == StubVector(text, sha256)
  {
    if backend == "gemini" && genaiAvailable then
      match provider(text)
      case None => StubVector(text, sha256)
      case Some(v) =>
        match ShapeProviderVector(v)
        case None => StubVector(text, sha256)
        case Some(w) => w
    else StubVector(text, sha256)
  }

  /** Every embedding has `VECTOR_DIM` entries; without a usable Gemini
      backend it is the stub vector, and a provider failure also gives the
      stub vector. */
  lemma EmbedOneShape(backend: string, genaiAvailable: bool, text: string,
                      provider: string -> Option<seq<Float32>>, sha256: string -> Digest)
    ensures |EmbedOne(backend, genaiAvailable, text, provider, sha256)| == VECTOR_DIM
    ensures !(backend == "gemini" && genaiAvailable) ==>
              EmbedOne(backend, genaiAvailable, text, provider, sha256) == StubVector(text, sha256)
    ensures provider(text).None? ==>
              EmbedOne(backend, genaiAvailable, text, provider, sha256) == StubVector(text, sha256)
    ensures backend == "gemini" && genaiAvailable && provider(text).Some?
            && 0 < |provider(text).value| <= VECTOR_DIM ==>
              forall i :: 0 <= i < VECTOR_DIM ==>
                EmbedOne(backend, genaiAvailable, text, provider, sha256)[i]
                  == provider(text).value[i % |provider(text).value|]
  {
    if provider(text).Some? {
      ShapeProviderVectorWraps(provider(text).value);
    }
  }

  // ---------------------------------------------------------------------------
  // generate

  /** What the Gemini call did: produced a response text (empty when it has
      none) or raised with a message. */
  datatype GeminiOutcome = GeminiText(text: string) | GeminiRaised(message: string)

  /** What running `ollama` did: produced its standard output, or raised. */
  datatype OllamaOutcome = OllamaStdout(out: string) | OllamaRaised(message: string)

  const STUB_PREFIX: string := "[stub] No LLM connected. Prompt: "

  /** `generate(prompt)`. `ollamaInstalled` is whether `ollama` is on the
      path. */
  function GenerateReply(backend: string, genaiAvailable: bool, ollamaInstalled: bool, prompt: string,
                         gemini: string -> GeminiOutcome, ollama: string -> OllamaOutcome): (r: string)
    ensures r == "" ==> (backend == "gemini" && genaiAvailable) || (backend == "ollama" && ollamaInstalled)
  {
    if backend == "gemini" && genaiAvailable then
      match gemini(prompt)
      case GeminiText(t) => if t != "" then Strip(t) else "[Gemini returned empty response]"
      case GeminiRaised(m) => "[Gemini Error] " + m
    else if backend == "ollama" && ollamaInstalled then
      match ollama(prompt)
      case OllamaStdout(out) => Strip(out)
      case OllamaRaised(m) => "[Ollama Error] " + m
    else STUB_PREFIX + prompt
  }

  /** With no usable backend the reply is the stub prefix followed by the
      whole prompt; a usable backend's failure is reported with that
      backend's error prefix. */
  lemma StubReplyWithoutBackend(backend: string, genaiAvailable: bool, ollamaInstalled: bool, prompt: string,
                              gemini: string -> GeminiOutcome, ollama: string -> OllamaOutcome)
    ensures var usable := (backend == "gemini" && genaiAvailable) || (backend == "ollama" && ollamaInstalled);
            && (!usable ==> GenerateReply(backend, genaiAvailable, ollamaInstalled, prompt, gemini, ollama)
                              == STUB_PREFIX + prompt)
            && (!usable ==> EndsWith(GenerateReply(backend, genaiAvailable, ollamaInstalled, prompt, gemini, ollama), prompt))
    ensures backend == "gemini" && genaiAvailable && gemini(prompt).GeminiRaised? ==>
              GenerateReply(backend, genaiAvailable, ollamaInstalled, prompt, gemini, ollama)
                == "[Gemini Error] " + gemini(prompt).message
    ensures backend == "ollama" && ollamaInstalled && ollama(prompt).OllamaRaised? ==>
              GenerateReply(backend, genaiAvailable, ollamaInstalled, prompt, gemini, ollama)
                == "[Ollama Error] " + ollama(prompt).message
  {
    var r := STUB_PREFIX + prompt;
    assert r[|r| - |prompt|..] == prompt;
  }

  // ---------------------------------------------------------------------------
  // The client object

  /** The backend setting: `backend_override or LLM_BACKEND`, defaulting to
      "gemini" when the variable is unset. */
  function ResolveBackend(backendOverride: Option<string>, envBackend: Option<string>): (r: string)
    ensures backendOverride.Some? && backendOverride.value != "" ==> r == backendOverride.value
    ensures r == "" ==> envBackend == Some("")
  {
    if backendOverride.Some? && backendOverride.value != "" then backendOverride.value
    else if envBackend.Some? then envBackend.value
    else "gemini"
  }

  /** The names llm_client.py binds at top level: its imports, its three
      constants, `GENAI_AVAILABLE`, the class, and `genai` when the Gemini
      library imported. It defines no module-level `embed` or
      `get_client`. */
  function ModuleNames(genaiImported: bool): (r: set<string>)
    ensures "LLMClient" in r && "VECTOR_DIM" in r
    ensures "genai" in r <==> genaiImported
  {
    {"os", "shutil", "subprocess", "np", "VECTOR_DIM", "GEMINI_CMD", "OLLAMA_CMD",
     "GENAI_AVAILABLE", "LLMClient"}
      + (if genaiImported then {"genai"} else {})
  }

  class LLMClient {
    const backend: string
    const genaiAvailable: bool

    /** `genaiImported` is whether `google.generativeai` imported;
        `apiKey` is `GEMINI_API_KEY`. */
    constructor (backendOverride: Option<string>, envBackend: Option<string>,
                 genaiImported: bool, apiKey: Option<string>)
      ensures backend == ResolveBackend(backendOverride, envBackend)
      ensures genaiAvailable <==> genaiImported && apiKey.Some? && apiKey.value != ""
    {
      backend := ResolveBackend(backendOverride, envBackend);
      genaiAvailable := genaiImported && apiKey.Some? && apiKey.value != "";
    }

    /** `embed(texts)`: one vector per text, in order, each of length
        `VECTOR_DIM`. */
    method Embed(texts: seq<string>, provider: string -> Option<seq<Float32>>, sha256: string -> Digest)
      returns (vectors: seq<Vector>)
      ensures |vectors| == |texts|
      ensures forall i :: 0 <= i < |texts| ==>
                vectors[i] == EmbedOne(backend, genaiAvailable, texts[i], provider, sha256)
      ensures forall i :: 0 <= i < |texts| ==> |vectors[i]| == VECTOR_DIM
    {
      vectors := [];
      var k := 0;
      while k < |texts|
        invariant 0 <= k <= |texts|
        invariant |vectors| == k
        invariant forall i :: 0 <= i < k ==>
                    vectors[i] == EmbedOne(backend, genaiAvailable, texts[i], provider, sha256)
        invariant forall i :: 0 <= i < k ==> |vectors[i]| == VECTOR_DIM
      {
        EmbedOneShape(backend, genaiAvailable, texts[k], provider, sha256);
        vectors := vectors + [EmbedOne(backend, genaiAvailable, texts[k], provider, sha256)];
        k := k + 1;
      }
    }

    /** `generate(prompt)`. */
    method Generate(prompt: string, ollamaInstalled: bool,
                    gemini: string -> GeminiOutcome, ollama: string -> OllamaOutcome)
      returns (reply: string)
      ensures reply == GenerateReply(backend, genaiAvailable, ollamaInstalled, prompt, gemini, ollama)
      ensures !(backend == "gemini" && genaiAvailable) && !(backend == "ollama" && ollamaInstalled) ==>
                reply == STUB_PREFIX + prompt
    {
      reply := GenerateReply(backend, genaiAvailable, ollamaInstalled, prompt, gemini, ollama);
    }
  }
}
