/**
 * The validated configuration sections of `config/loader.py`: the splitter section with
 * its field bounds and the cross-field rule that the overlap stays below the chunk size,
 * and the retriever section with its allowed methods and bounded `k`. A section arrives
 * as a record of optional fields (a missing field takes its declared default) and is
 * either accepted unchanged or rejected with the list of what is wrong.
 */
module Config {
  import opened Wrappers
  import opened ChatLog
  import opened Rag

  /** What validation reports, in the order the fields are declared. */
  datatype ConfigError =
    | BelowMinimum(field: string, bound: int)          // a `ge` bound fails
    | AboveMaximum(field: string, bound: int)          // a `le` bound fails
    | NotAllowed(field: string, value: string)         // a `Literal` value fails
    | OverlapNotBelowChunk(overlap: int, chunk: int)   // `check_overlap_less_than_chunk` raises

  /** A field bound holds for a value that is given; a missing field is not checked. */
  function AtLeast(field: string, given: Option<int>, bound: int): (errors: seq<ConfigError>)
    ensures errors == [] <==> (given.None? || given.value >= bound)
    ensures errors != [] ==> errors == [BelowMinimum(field, bound)]
  {
    match given
    case Some(v) => if v >= bound then [] else [BelowMinimum(field, bound)]
    case None => []
  }

  function AtMost(field: string, given: Option<int>, bound: int): (errors: seq<ConfigError>)
    ensures errors == [] <==> (given.None? || given.value <= bound)
    ensures errors != [] ==> errors == [AboveMaximum(field, bound)]
  {
    match given
    case Some(v) => if v <= bound then [] else [AboveMaximum(field, bound)]
    case None => []
  }

  function Or<T>(given: Option<T>, default: T): T {
    match given
    case Some(v) => v
    case None => default
  }

  // ---------------------------------------------------------------------------
  // The splitter section

  datatype SplitterInput = SplitterInput(chunkSize: Option<int>, chunkOverlap: Option<int>, maxMessageLength: Option<int>)

  datatype SplitterConfig = SplitterConfig(chunkSize: int, chunkOverlap: int, maxMessageLength: int)

  /** The section with every missing field at its default 10, 5 and 300. */
  function Resolved(input: SplitterInput): SplitterConfig {
    SplitterConfig(Or(input.chunkSize, 10), Or(input.chunkOverlap, 5), Or(input.maxMessageLength, 300))
  }

  /** The rules a splitter section must keep, stated on its final values. */
  predicate Accepted(c: SplitterConfig) {
    c.chunkSize >= 1 && c.chunkOverlap >= 0 && 10 <= c.maxMessageLength <= 5000
    && c.chunkOverlap < c.chunkSize
  }

  /** Every given field keeps its own bound. */
  predicate FieldsInBounds(input: SplitterInput) {
    (input.chunkSize.None? || input.chunkSize.value >= 1)
    && (input.chunkOverlap.None? || input.chunkOverlap.value >= 0)
    && (input.maxMessageLength.None? || 10 <= input.maxMessageLength.value <= 5000)
  }

  function SplitterFieldErrors(input: SplitterInput): (errors: seq<ConfigError>)
    ensures errors == [] <==> FieldsInBounds(input)
  {
    AtLeast("chunk_size", input.chunkSize, 1)
    + AtLeast("chunk_overlap", input.chunkOverlap, 0)
    + AtLeast("max_message_length", input.maxMessageLength, 10)
    + AtMost("max_message_length", input.maxMessageLength, 5000)
  }

  /**
   * `SplitterConfig(**section)`: the field bounds first, every failing field reported;
   * only when they all hold does the overlap check run, and then the section is accepted
   * exactly as given.
   */
  function ValidateSplitter(input: SplitterInput): (r: Result<SplitterConfig, seq<ConfigError>>)
    ensures r.Ok? <==> Accepted(Resolved(input))
    ensures r.Ok? ==> r.value == Resolved(input)
    ensures r.Err? ==> r.error != []
    ensures r.Err? && !FieldsInBounds(input) ==> forall e :: e in r.error ==> !e.OverlapNotBelowChunk?
    ensures r.Err? && FieldsInBounds(input) ==>
              r.error == [OverlapNotBelowChunk(Resolved(input).chunkOverlap, Resolved(input).chunkSize)]
  {
    var errors := SplitterFieldErrors(input);
    if errors != [] then Err(errors)
    else
      var c := Resolved(input);
      if c.chunkOverlap >= c.chunkSize then Err([OverlapNotBelowChunk(c.chunkOverlap, c.chunkSize)])
      else Ok(c)
  }

  /** Each field bound on its own rejects the section and names the field. */
  lemma SplitterBoundsReported(input: SplitterInput)
    ensures input.chunkSize.Some? && input.chunkSize.value < 1 ==>
              ValidateSplitter(input).Err? && BelowMinimum("chunk_size", 1) in ValidateSplitter(input).error
    ensures input.chunkOverlap.Some? && input.chunkOverlap.value < 0 ==>
              ValidateSplitter(input).Err? && BelowMinimum("chunk_overlap", 0) in ValidateSplitter(input).error
    ensures input.maxMessageLength.Some? && input.maxMessageLength.value < 10 ==>
              ValidateSplitter(input).Err? && BelowMinimum("max_message_length", 10) in ValidateSplitter(input).error
    ensures input.maxMessageLength.Some? && input.maxMessageLength.value > 5000 ==>
              ValidateSplitter(input).Err? && AboveMaximum("max_message_length", 5000) in ValidateSplitter(input).error
  {
    var a := AtLeast("chunk_size", input.chunkSize, 1);
    var b := AtLeast("chunk_overlap", input.chunkOverlap, 0);
    var c := AtLeast("max_message_length", input.maxMessageLength, 10);
    var d := AtMost("max_message_length", input.maxMessageLength, 5000);
    assert SplitterFieldErrors(input) == a + b + c + d;
    if a != [] {
      assert (a + b + c + d)[0] == a[0];
    }
    if b != [] {
      assert (a + b + c + d)[|a|] == b[0];
    }
    if c != [] {
      assert (a + b + c + d)[|a| + |b|] == c[0];
    }
    if d != [] {
      assert (a + b + c + d)[|a| + |b| + |c|] == d[0];
    }
  }

  /** An empty section is the default splitter, and it is accepted. */
  lemma DefaultsAccepted()
    ensures ValidateSplitter(SplitterInput(None, None, None)) == Ok(SplitterConfig(10, 5, 300))
    ensures Resolved(SplitterInput(None, None, None))
            == SplitterConfig(DefaultChunkSize, DefaultOverlap, DefaultMaxMessageLength)
  {
  }

  /**
   * Under an accepted section the splitter loop advances by at least one message, so
   * `split_messages` ends on every list and makes `ceil(m / (chunk_size - chunk_overlap))`
   * chunks of `m` messages.
   */
  lemma AcceptedSplitCount(input: SplitterInput, c: SplitterConfig, msgs: seq<Message>)
    requires ValidateSplitter(input) == Ok(c)
    ensures c.chunkSize - c.chunkOverlap >= 1
    ensures |Split(msgs, c.chunkSize, c.chunkOverlap, c.maxMessageLength)|
            == if msgs == [] then 0 else Ceil(|msgs|, c.chunkSize - c.chunkOverlap)
  {
    WindowsShape(msgs, c.chunkSize, c.chunkOverlap);
  }

  /**
   * Under an accepted section every message is rendered in some chunk: message `k` is
   * line `i = k - j * step` of chunk `j = k / step`.
   */
  lemma AcceptedSplitCovers(input: SplitterInput, c: SplitterConfig, msgs: seq<Message>, k: nat) returns (j: nat, i: nat)
    requires ValidateSplitter(input) == Ok(c) && k < |msgs|
    ensures j == k / (c.chunkSize - c.chunkOverlap) && i == k - j * (c.chunkSize - c.chunkOverlap)
    ensures var w := Windows(msgs, c.chunkSize, c.chunkOverlap);
            j < |w| && i < |w[j]| && Split(msgs, c.chunkSize, c.chunkOverlap, c.maxMessageLength)[j] == Chunk(w[j], c.maxMessageLength)
            && Rendered(w[j], c.maxMessageLength)[i] == Line(msgs[k], c.maxMessageLength)
  {
    var step := c.chunkSize - c.chunkOverlap;
    j := k / step;
    i := k - j * step;
    WindowsCover(msgs, c.chunkSize, c.chunkOverlap, k);
    LineInChunk(Windows(msgs, c.chunkSize, c.chunkOverlap), j, i, c.maxMessageLength, msgs[k]);
  }

  lemma LineInChunk(w: seq<seq<Message>>, j: nat, i: nat, maxLen: int, m: Message)
    requires j < |w| && i < |w[j]| && w[j][i] == m
    ensures Chunks(w, maxLen)[j] == Chunk(w[j], maxLen) && Rendered(w[j], maxLen)[i] == Line(m, maxLen)
  {
  }

  // ---------------------------------------------------------------------------
  // The retriever section

  datatype RetrieverInput = RetrieverInput(retrievalMethod: Option<string>, k: Option<int>, embeddingsModel: Option<string>)

  datatype RetrieverConfig = RetrieverConfig(retrievalMethod: string, k: int, embeddingsModel: string)

  const DefaultEmbeddingsModel := "sentence-transformers/all-MiniLM-L6-v2"

  /** The values of `Literal["bm25", "FAISS"]`. */
  predicate KnownMethod(m: string) {
    m == "bm25" || m == "FAISS"
  }

  /** The section with every missing field at its default `"bm25"`, 3 and the MiniLM model. */
  function ResolvedRetriever(input: RetrieverInput): RetrieverConfig {
    RetrieverConfig(Or(input.retrievalMethod, "bm25"), Or(input.k, 3), Or(input.embeddingsModel, DefaultEmbeddingsModel))
  }

  function MethodErrors(given: Option<string>): (errors: seq<ConfigError>)
    ensures errors == [] <==> (given.None? || KnownMethod(given.value))
  {
    match given
    case Some(m) => if KnownMethod(m) then [] else [NotAllowed("retrieval_method", m)]
    case None => []
  }

  /** `RetrieverConfig(**section)`: a known method and `1 <= k <= 50`, both reported when wrong. */
  function ValidateRetriever(input: RetrieverInput): (r: Result<RetrieverConfig, seq<ConfigError>>)
    ensures r.Ok? <==> (KnownMethod(ResolvedRetriever(input).retrievalMethod) && 1 <= ResolvedRetriever(input).k <= 50)
    ensures r.Ok? ==> r.value == ResolvedRetriever(input)
    ensures r.Err? ==> r.error != []
  {
    var errors := MethodErrors(input.retrievalMethod) + AtLeast("k", input.k, 1) + AtMost("k", input.k, 50);
    if errors != [] then Err(errors) else Ok(ResolvedRetriever(input))
  }

  /** An accepted retriever section names one of the two backends and asks for 1 to 50 chunks. */
  lemma AcceptedRetriever(input: RetrieverInput, c: RetrieverConfig, ranked: seq<string>)
    requires ValidateRetriever(input) == Ok(c)
    ensures c.retrievalMethod in {"bm25", "FAISS"} && 1 <= c.k <= 50
    ensures |TopK(ranked, c.k)| <= 50
  {
  }

  /** An empty section is accepted with the BM25 backend and `k = 3`. */
  lemma RetrieverDefaults()
    ensures ValidateRetriever(RetrieverInput(None, None, None)) == Ok(RetrieverConfig("bm25", 3, DefaultEmbeddingsModel))
  {
  }
}
