/**
 * The retrieval front end: the splitter that cuts the parsed chat into overlapping
 * windows of rendered lines, the `Retriever` that chunks its passages with the default
 * splitter, and the take-k-and-join of `retrieve`. The ranking backends are not part of
 * this model: they enter as the ranked list of chunk texts they return.
 */
module Rag {
  import opened Wrappers
  import opened Text
  import opened Time
  import opened ChatLog

  // ---------------------------------------------------------------------------
  // Python slicing

  /** A slice bound of Python's `s[i:j]` normalised against the length `n`. */
  function Clamp(k: int, n: nat): (b: nat)
    ensures b <= n
  {
    if k < 0 then (if k + n < 0 then 0 else k + n)
    else if k > n then n
    else k
  }

  /** `s[i:j]`, negative bounds counting from the end. */
  function Slice<T>(s: seq<T>, i: int, j: int): (r: seq<T>)
    ensures |r| <= |s|
  {
    var a, b := Clamp(i, |s|), Clamp(j, |s|);
    if a < b then s[a..b] else []
  }

  /** With bounds that are not negative a slice is the plain subsequence, cut at the end. */
  lemma SliceForward<T>(s: seq<T>, i: int, j: int)
    requires 0 <= i <= j
    ensures i <= |s| ==> Slice(s, i, j) == s[i..if j <= |s| then j else |s|]
    ensures i >= |s| ==> Slice(s, i, j) == []
  {
  }

  // ---------------------------------------------------------------------------
  // One message, one line

  /**
   * `truncate_message`: a message longer than `maxLen` is cut to `message[:maxLen]`
   * and marked with `...`; a message that fits comes back as it is.
   */
  function Truncate(message: string, maxLen: int): (r: string)
    ensures |message| <= maxLen ==> r == message
    ensures |message| > maxLen ==> 3 <= |r| <= |message| + 3 && r[|r| - 3..] == "..."
                                   && r[..|r| - 3] == message[..|r| - 3]
    ensures 0 <= maxLen < |message| ==> |r| == maxLen + 3
    ensures maxLen >= 0 ==> |r| <= maxLen + 3
  {
    if |message| > maxLen then Slice(message, 0, maxLen) + "..." else message
  }

  /** Cutting twice cuts no more than once. */
  lemma TruncateIdempotent(message: string, maxLen: int)
    requires maxLen >= 0
    ensures Truncate(Truncate(message, maxLen), maxLen) == Truncate(message, maxLen)
  {
    var r := Truncate(message, maxLen);
    if |message| > maxLen {
      var t := Truncate(r, maxLen);
      assert r[..maxLen] == message[..maxLen];
      assert t[..maxLen] == r[..maxLen];
      assert t == t[..maxLen] + t[maxLen..];
      assert r == r[..maxLen] + r[maxLen..];
    }
  }

  /** With a limit of 0 every non-empty message renders as the marker alone. */
  lemma TruncateZero(message: string)
    requires message != []
    ensures Truncate(message, 0) == "..."
  {
  }

  /** A hundred `X`s cut at 50 are fifty `X`s and the marker. */
  lemma TruncateExample()
    ensures Truncate(seq(100, _ => 'X'), 50) == seq(50, _ => 'X') + "..."
  {
    var r := Truncate(seq(100, _ => 'X'), 50);
    assert r[..50] == seq(50, _ => 'X');
    assert r == r[..50] + r[50..];
  }

  /** The line a window shows for a message: `<%Y-%m-%d %H:%M> - <user>: <truncated text>`. */
  function Line(m: Message, maxLen: int): (line: string)
    ensures |line| == 21 + |m.user| + |Truncate(m.message, maxLen)|
  {
    FormatMinute(m.time) + " - " + m.user + ": " + Truncate(m.message, maxLen)
  }

  /** The time at the head of a line reads back as the message's time. */
  lemma LineTime(m: Message, maxLen: int)
    requires Valid(m.time)
    ensures |Line(m, maxLen)| >= 16 && ReadMinute(Line(m, maxLen)[..16]) == Some(m.time)
  {
    var s := FormatMinute(m.time);
    var rest := " - " + m.user + ": " + Truncate(m.message, maxLen);
    assert Line(m, maxLen) == s + rest;
    SliceBefore(s, rest, 0, 16);
    assert s[0..16] == s;
    FormatMinuteRoundTrip(m.time);
  }

  /** A rendered time holds no line break. */
  lemma StampHasNoNewline(t: DateTime)
    ensures '\n' !in FormatMinute(t)
  {
    PadDigits(t.year, 4);
    PadDigits(t.month, 2);
    PadDigits(t.day, 2);
    PadDigits(t.hour, 2);
    PadDigits(t.minute, 2);
  }

  /** A line holds a break only where its user or its message does. */
  lemma LineHasNoNewline(m: Message, maxLen: int)
    requires '\n' !in m.user && '\n' !in m.message
    ensures '\n' !in Line(m, maxLen)
  {
    StampHasNoNewline(m.time);
    var r := Truncate(m.message, maxLen);
    if |m.message| > maxLen {
      assert r == r[..|r| - 3] + r[|r| - 3..];
      assert forall c :: c in r[..|r| - 3] ==> c in m.message;
    }
  }

  // ---------------------------------------------------------------------------
  // One window, one chunk

  /** The rendered lines of a window, one per message, in order. */
  function Rendered(window: seq<Message>, maxLen: int): (lines: seq<string>)
    ensures |lines| == |window|
    ensures forall k :: 0 <= k < |window| ==> lines[k] == Line(window[k], maxLen)
    decreases |window|
  {
    if window == [] then []
    else [Line(window[0], maxLen)] + Rendered(window[1..], maxLen)
  }

  /** The text of the chunk for a window: its lines joined by line breaks. */
  function Chunk(window: seq<Message>, maxLen: int): (text: string)
    ensures window == [] ==> text == ""
    ensures |window| == 1 ==> text == Line(window[0], maxLen)
  {
    Join(Rendered(window, maxLen), "\n")
  }

  /**
   * When no user and no message holds a line break, splitting a chunk at its breaks
   * gives back the lines of its window.
   */
  lemma ChunkLines(window: seq<Message>, maxLen: int)
    requires window != []
    requires forall k :: 0 <= k < |window| ==> '\n' !in window[k].user && '\n' !in window[k].message
    ensures SplitOn(Chunk(window, maxLen), '\n') == Rendered(window, maxLen)
  {
    var lines := Rendered(window, maxLen);
    forall k | 0 <= k < |lines| ensures '\n' !in lines[k] {
      LineHasNoNewline(window[k], maxLen);
    }
    SplitJoin(lines, '\n');
  }

  // ---------------------------------------------------------------------------
  // The windows

  /**
   * The windows from start `i` on: `s[i:i + size]` at every `step`, as long as the
   * start lies inside the list.
   */
  function WindowsFrom<T>(s: seq<T>, size: int, step: int, i: nat): seq<seq<T>>
    requires i >= |s| || step >= 1
    decreases |s| - i
  {
    if i < |s| then [Slice(s, i, i + size)] + WindowsFrom(s, size, step, i + step) else []
  }

  /** Ceiling division: the number of steps of `step` it takes to pass `m`. */
  function Ceil(m: nat, step: nat): nat
    requires step >= 1
  {
    (m + step - 1) / step
  }

  /** `Ceil(m, step)` is the one count `n` with `(n - 1) * step < m <= n * step` (for m > 0). */
  lemma CeilUnique(m: nat, step: nat, n: nat)
    requires step >= 1 && m > 0
    ensures Ceil(m, step) == n <==> (n - 1) * step < m <= n * step
  {
    var q, r := (m + step - 1) / step, (m + step - 1) % step;
    assert m + step - 1 == q * step + r;
    if n >= q + 1 {
      MulMono(q, n - 1, step);
    } else if n + 1 <= q {
      MulMono(n + 1, q, step);
    }
  }

  lemma MulMono(a: int, b: int, c: nat)
    requires a <= b
    ensures a * c <= b * c
  {
  }

  /** The windows from start `i` on are as many as the steps it takes from `i` past the end. */
  lemma {:induction false} WindowsFromCount<T>(s: seq<T>, size: int, step: int, i: nat)
    requires step >= 1 && i < |s|
    ensures var n := |WindowsFrom(s, size, step, i)|;
            (n - 1) * step < |s| - i <= n * step
    decreases |s| - i
  {
    var n := |WindowsFrom(s, size, step, i)|;
    var m := |WindowsFrom(s, size, step, i + step)|;
    assert n == 1 + m;
    if i + step < |s| {
      WindowsFromCount(s, size, step, i + step);
      assert (m - 1) * step < |s| - (i + step) <= m * step;
      assert (n - 1) * step == m * step && n * step == m * step + step;
    } else {
      assert m == 0;
    }
  }

  /** Window `j` from start `i` on starts at `i + j * step`. */
  lemma {:induction false} WindowsFromAt<T>(s: seq<T>, size: int, step: int, i: nat, j: nat)
    requires step >= 1 && j < |WindowsFrom(s, size, step, i)|
    ensures WindowsFrom(s, size, step, i)[j] == Slice(s, i + j * step, i + j * step + size)
    decreases j
  {
    var w := WindowsFrom(s, size, step, i);
    var tail := WindowsFrom(s, size, step, i + step);
    assert w == [Slice(s, i, i + size)] + tail;
    if j == 0 {
      assert i + j * step == i;
    } else {
      WindowsFromAt(s, size, step, i + step, j - 1);
      assert w[j] == tail[j - 1];
      ShiftArith(i, step, j);
    }
  }

  lemma ShiftArith(i: int, step: int, j: int)
    ensures (i + step) + (j - 1) * step == i + j * step
  {
  }

  /** The windows of `split_messages`: from 0 on, at every step `size - overlap`. */
  function Windows<T>(s: seq<T>, size: int, overlap: int): (w: seq<seq<T>>)
    requires s == [] || size - overlap >= 1
    ensures w == [] <==> s == []
  {
    WindowsFrom(s, size, size - overlap, 0)
  }

  /**
   * For `m` elements and step `size - overlap` there are `ceil(m / step)` windows, and
   * window `j` is `s[j*step : j*step + size]`; an empty list gives none.
   */
  lemma WindowsShape<T>(s: seq<T>, size: int, overlap: int)
    requires s == [] || size - overlap >= 1
    ensures var w := Windows(s, size, overlap);
            (s == [] ==> w == [])
            && (s != [] ==> |w| == Ceil(|s|, size - overlap))
            && forall j :: 0 <= j < |w| ==>
                 w[j] == Slice(s, j * (size - overlap), j * (size - overlap) + size)
  {
    if s != [] {
      var step := size - overlap;
      var w := Windows(s, size, overlap);
      WindowsFromCount(s, size, step, 0);
      CeilUnique(|s|, step, |w|);
      forall j | 0 <= j < |w|
        ensures w[j] == Slice(s, j * step, j * step + size)
      {
        WindowsFromAt(s, size, step, 0, j);
        assert 0 + j * step == j * step;
      }
    }
  }

  /** A hundred messages in windows of 3 with overlap 1 make fifty windows. */
  lemma WindowsHundred<T>(s: seq<T>)
    requires |s| == 100
    ensures |Windows(s, 3, 1)| == 50
  {
    WindowsShape(s, 3, 1);
  }

  /**
   * With `0 <= overlap < size`, every element lies in some window: element `k` is
   * entry `k - j*step` of window `j = k / step`.
   */
  lemma WindowsCover<T>(s: seq<T>, size: int, overlap: int, k: nat)
    requires 0 <= overlap < size && k < |s|
    ensures var step := size - overlap;
            var j := k / step;
            var w := Windows(s, size, overlap);
            j < |w| && j * step <= k < j * step + size && k - j * step < |w[j]| && w[j][k - j * step] == s[k]
  {
    var step := size - overlap;
    var w := Windows(s, size, overlap);
    WindowsFromCount(s, size, step, 0);
    var j, a := CoverArith(|s|, step, size, k, |w|);
    WindowStart(s, size, step, j, a);
    SliceForward(s, a, a + size);
  }

  /** Window `j` of the windows from 0, given its start `a = j * step`. */
  lemma WindowStart<T>(s: seq<T>, size: int, step: int, j: nat, a: nat)
    requires step >= 1 && j < |WindowsFrom(s, size, step, 0)| && a == j * step
    ensures WindowsFrom(s, size, step, 0)[j] == Slice(s, a, a + size)
  {
    WindowsFromAt(s, size, step, 0, j);
  }

  /** The arithmetic of `WindowsCover`: the window `k / step` exists and spans `k`. */
  lemma CoverArith(m: nat, step: nat, size: int, k: nat, n: nat) returns (j: nat, a: nat)
    requires 1 <= step <= size && k < m && (n - 1) * step < m <= n * step
    ensures j == k / step && a == j * step && a <= k < a + size && j < n
  {
    j := k / step;
    a := j * step;
    assert j * step <= k < j * step + step;
    if j >= n {
      MulMono(n, j, step);
    }
  }

  /**
   * Window starts step forward: window `j` is the slice from `a = j * step`, and the next
   * window is the slice from `a + step`, still inside the list.
   */
  lemma StartsIncrease<T>(s: seq<T>, size: int, overlap: int, j: nat) returns (a: nat, b: nat)
    requires s != [] && size >= 1 && size - overlap >= 1 && j + 1 < |Windows(s, size, overlap)|
    ensures a == j * (size - overlap) && b == a + (size - overlap) && a < b < |s|
    ensures Windows(s, size, overlap)[j] == Slice(s, a, a + size)
    ensures Windows(s, size, overlap)[j + 1] == Slice(s, b, b + size)
  {
    var step := size - overlap;
    WindowInside(s, size, overlap, j + 1);
    a, b := NextStart(j, step);
    WindowStart(s, size, step, j, a);
    WindowStart(s, size, step, j + 1, b);
  }

  lemma NextStart(j: nat, step: nat) returns (a: nat, b: nat)
    ensures a == j * step && b == a + step && b == (j + 1) * step
  {
    a := j * step;
    b := a + step;
  }

  /**
   * Two consecutive windows that are both full share exactly `overlap` elements: the last
   * `overlap` of window `j` are the first `overlap` of window `j + 1`.
   */
  lemma WindowsOverlap<T>(s: seq<T>, size: int, overlap: int, j: nat)
    requires 0 <= overlap < size
    requires (j + 1) * (size - overlap) + size <= |s|
    ensures var step := size - overlap;
            var w := Windows(s, size, overlap);
            j + 1 < |w| && |w[j]| == size && |w[j + 1]| == size && w[j][step..] == w[j + 1][..overlap]
  {
    var step := size - overlap;
    var w := Windows(s, size, overlap);
    WindowsFromCount(s, size, step, 0);
    var a: nat := OverlapArith(|s|, step, size, j, |w|);
    WindowsFromAt(s, size, step, 0, j);
    WindowsFromAt(s, size, step, 0, j + 1);
    assert 0 + j * step == a && 0 + (j + 1) * step == a + step;
    SliceForward(s, a, a + size);
    SliceForward(s, a + step, a + step + size);
    assert s[a..a + size][step..] == s[a + step..a + size];
    assert s[a + step..a + step + size][..size - step] == s[a + step..a + size];
  }

  /** The arithmetic of `WindowsOverlap`: window `j + 1` exists, and `j * step` is where `j` starts. */
  lemma OverlapArith(m: nat, step: nat, size: int, j: nat, n: nat) returns (a: nat)
    requires 1 <= step && (j + 1) * step + size <= m && (n - 1) * step < m <= n * step && size >= 1
    ensures a == j * step && (j + 1) * step == a + step && j + 1 < n
  {
    a := j * step;
    if j + 1 >= n {
      MulMono(n, j + 1, step);
    }
  }

  // ---------------------------------------------------------------------------
  // The split

  /** The chunk texts of a run of windows, in order. */
  function Chunks(windows: seq<seq<Message>>, maxLen: int): (chunks: seq<string>)
    ensures |chunks| == |windows|
    ensures forall j :: 0 <= j < |windows| ==> chunks[j] == Chunk(windows[j], maxLen)
    decreases |windows|
  {
    if windows == [] then [] else [Chunk(windows[0], maxLen)] + Chunks(windows[1..], maxLen)
  }

  /** One turn of the loop in `split_messages`: the chunk of window `i` joins those before it. */
  lemma SplitAdvance(s: seq<Message>, size: int, step: int, maxLen: int, i: nat, next: nat,
                     prev: seq<string>, c: string, chunks: seq<string>, total: seq<string>)
    requires step >= 1 && i < |s| && next == i + step
    requires prev + Chunks(WindowsFrom(s, size, step, i), maxLen) == total
    requires c == Join(Rendered(Slice(s, i, i + size), maxLen), "\n") && chunks == prev + [c]
    ensures chunks + Chunks(WindowsFrom(s, size, step, next), maxLen) == total
  {
    var window := Slice(s, i, i + size);
    var later := WindowsFrom(s, size, step, next);
    WindowsFromNext(s, size, step, i, next);
    ChunksCons(window, later, maxLen);
    assert c == Chunk(window, maxLen);
    Regroup(prev, c, Chunks(WindowsFrom(s, size, step, i), maxLen), Chunks(later, maxLen), total);
  }

  lemma WindowsFromNext<T>(s: seq<T>, size: int, step: int, i: nat, next: nat)
    requires step >= 1 && i < |s| && next == i + step
    ensures WindowsFrom(s, size, step, i) == [Slice(s, i, i + size)] + WindowsFrom(s, size, step, next)
  {
  }

  lemma ChunksCons(window: seq<Message>, later: seq<seq<Message>>, maxLen: int)
    ensures Chunks([window] + later, maxLen) == [Chunk(window, maxLen)] + Chunks(later, maxLen)
  {
    assert ([window] + later)[1..] == later;
  }

  lemma Regroup<T>(prev: seq<T>, c: T, rest: seq<T>, tail: seq<T>, total: seq<T>)
    requires prev + rest == total && rest == [c] + tail
    ensures (prev + [c]) + tail == total
  {
    assert (prev + [c]) + tail == prev + ([c] + tail);
  }

  /** Before the loop in `split_messages` no chunk is made yet. */
  lemma SplitStart(s: seq<Message>, size: int, overlap: int, maxLen: int, step: int, total: seq<string>)
    requires (s == [] || size - overlap >= 1) && step == size - overlap
    requires total == Split(s, size, overlap, maxLen)
    ensures [] + Chunks(WindowsFrom(s, size, step, 0), maxLen) == total
  {
    var windows := WindowsFrom(s, size, step, 0);
    assert Windows(s, size, overlap) == windows;
    assert [] + Chunks(windows, maxLen) == Chunks(windows, maxLen);
  }

  /**
   * What `split_messages` returns for a splitter with these settings. The loop only ends
   * when the step `chunk - overlap` is positive, or when there is nothing to split.
   */
  function Split(msgs: seq<Message>, chunk: int, overlap: int, maxLen: int): (chunks: seq<string>)
    requires msgs == [] || chunk - overlap >= 1
    ensures |chunks| == |Windows(msgs, chunk, overlap)|
    ensures chunks == [] <==> msgs == []
  {
    Chunks(Windows(msgs, chunk, overlap), maxLen)
  }

  /** `ChatSplitter`: window size, overlap and the per-message length limit. */
  class ChatSplitter {
    const chunkSize: int
    const overlap: int
    const maxMessageLength: int

    /** `ChatSplitter(chunk_size=10, overlap=5, max_message_length=300)`; nothing is checked. */
    constructor(chunkSize: int := 10, overlap: int := 5, maxMessageLength: int := 300)
      ensures this.chunkSize == chunkSize && this.overlap == overlap
      ensures this.maxMessageLength == maxMessageLength
    {
      this.chunkSize := chunkSize;
      this.overlap := overlap;
      this.maxMessageLength := maxMessageLength;
    }

    /**
     * `split_messages`: from `i = 0`, while `i` is inside the list, renders the window
     * `messages[i:i + chunk_size]` and moves `i` on by `chunk_size - overlap`.
     */
    method SplitMessages(messages: seq<Message>) returns (chunks: seq<string>)
      requires messages == [] || chunkSize - overlap >= 1
      ensures chunks == Split(messages, chunkSize, overlap, maxMessageLength)
    {
      chunks := [];
      var i: nat := 0;
      var step := chunkSize - overlap;
      ghost var total := Split(messages, chunkSize, overlap, maxMessageLength);
      SplitStart(messages, chunkSize, overlap, maxMessageLength, step, total);
      while i < |messages|
        invariant messages != [] ==> step >= 1
        invariant chunks + Chunks(WindowsFrom(messages, chunkSize, step, i), maxMessageLength) == total
        decreases |messages| - i
      {
        var window := Slice(messages, i, i + chunkSize);
        var formatted := Rendered(window, maxMessageLength);
        var chunkText := Join(formatted, "\n");
        ghost var before, at := chunks, i;
        chunks := chunks + [chunkText];
        i := i + step;
        SplitAdvance(messages, chunkSize, step, maxMessageLength, at, i, before, chunkText, chunks, total);
      }
      assert chunks + [] == chunks;
    }
  }

  /** The window settings `Retriever` always splits with. */
  const DefaultChunkSize := 10
  const DefaultOverlap := 5
  const DefaultMaxMessageLength := 300

  /** `Retriever`: the passages it was given and the chunks it made of them. */
  class Retriever {
    var passages: seq<Message>
    var chunks: seq<string>

    /** `Retriever(passages)`: keeps the passages and chunks them at once. */
    constructor(passages: seq<Message>)
      ensures this.passages == passages
      ensures chunks == Split(passages, DefaultChunkSize, DefaultOverlap, DefaultMaxMessageLength)
    {
      this.passages := passages;
      chunks := [];
      new;
      SplitPassages();
    }

    /** `_split_passages`: the chunks of a splitter built with no arguments. */
    method SplitPassages()
      modifies this
      ensures passages == old(passages)
      ensures chunks == Split(passages, DefaultChunkSize, DefaultOverlap, DefaultMaxMessageLength)
    {
      var splitter := new ChatSplitter();
      chunks := splitter.SplitMessages(passages);
    }
  }

  /**
   * `split_messages` of `m > 0` messages makes `ceil(m / step)` chunks, chunk `j` being
   * the rendered window `messages[j*step : j*step + chunk_size]`, with `step = chunk_size - overlap`.
   */
  lemma SplitShape(msgs: seq<Message>, size: int, overlap: int, maxLen: int)
    requires msgs != [] && size - overlap >= 1
    ensures var chunks := Split(msgs, size, overlap, maxLen);
            var step := size - overlap;
            |chunks| == Ceil(|msgs|, step)
            && forall j :: 0 <= j < |chunks| ==> chunks[j] == Chunk(Slice(msgs, j * step, j * step + size), maxLen)
  {
    WindowsShape(msgs, size, overlap);
  }

  /** The retriever's chunks come in windows of 10 at every fifth message. */
  lemma DefaultChunks(passages: seq<Message>)
    requires passages != []
    ensures var r := Split(passages, DefaultChunkSize, DefaultOverlap, DefaultMaxMessageLength);
            |r| == Ceil(|passages|, 5)
            && forall j :: 0 <= j < |r| ==> r[j] == Chunk(Slice(passages, j * 5, j * 5 + 10), 300)
  {
    var w := Windows(passages, 10, 5);
    assert Split(passages, 10, 5, 300) == Chunks(w, 300);
    DefaultWindows(passages);
  }

  /** The default windows: 10 messages at every fifth one. */
  lemma DefaultWindows<T>(s: seq<T>)
    requires s != []
    ensures var w := Windows(s, 10, 5);
            |w| == Ceil(|s|, 5) && forall j :: 0 <= j < |w| ==> w[j] == Slice(s, j * 5, j * 5 + 10)
  {
    WindowsShape(s, 10, 5);
  }

  /** Every window starts inside the list, so with a positive size it is never empty. */
  lemma WindowInside<T>(s: seq<T>, size: int, overlap: int, j: nat)
    requires s != [] && size >= 1 && size - overlap >= 1 && j < |Windows(s, size, overlap)|
    ensures j * (size - overlap) < |s| && Windows(s, size, overlap)[j] != []
  {
    var step := size - overlap;
    var w := Windows(s, size, overlap);
    WindowsFromCount(s, size, step, 0);
    var a := InsideArith(|s|, step, j, |w|);
    WindowStart(s, size, step, j, a);
    SliceForward(s, a, a + size);
  }

  /** The arithmetic of `WindowInside`: a window's start `j * step` lies below `m`. */
  lemma InsideArith(m: nat, step: nat, j: nat, n: nat) returns (a: nat)
    requires 1 <= step && j < n && (n - 1) * step < m
    ensures a == j * step && a < m
  {
    a := j * step;
    MulMono(j, n - 1, step);
  }

  /** Every element of a slice comes from the list. */
  lemma SliceWithin<T>(s: seq<T>, i: int, j: int)
    ensures forall x :: x in Slice(s, i, j) ==> x in s
  {
    var a, b := Clamp(i, |s|), Clamp(j, |s|);
    if a < b {
      forall x | x in s[a..b] ensures x in s {
        var k :| 0 <= k < b - a && s[a..b][k] == x;
        assert s[a + k] == x;
      }
    }
  }

  /** A window holds only elements of the list. */
  lemma WindowWithin<T>(s: seq<T>, size: int, overlap: int, j: nat)
    requires (s == [] || size - overlap >= 1) && j < |Windows(s, size, overlap)|
    ensures forall x :: x in Windows(s, size, overlap)[j] ==> x in s
  {
    var step := size - overlap;
    WindowsShape(s, size, overlap);
    SliceWithin(s, j * step, j * step + size);
  }

  /**
   * Each chunk of records without line breaks splits at its breaks into exactly the
   * lines of its window, one per message.
   */
  lemma SplitChunkLines(chat: seq<Message>, size: int, overlap: int, maxLen: int, j: nat)
    requires size >= 1 && size - overlap >= 1
    requires forall m :: m in chat ==> Unbroken(m)
    requires j < |Split(chat, size, overlap, maxLen)|
    ensures SplitOn(Split(chat, size, overlap, maxLen)[j], '\n') == Rendered(Windows(chat, size, overlap)[j], maxLen)
  {
    var w := Windows(chat, size, overlap);
    WindowInside(chat, size, overlap, j);
    WindowWithin(chat, size, overlap, j);
    forall k | 0 <= k < |w[j]| ensures Unbroken(w[j][k]) {
      assert w[j][k] in w[j];
    }
    ChunkLines(w[j], maxLen);
  }

  /** So every chunk made of a parsed export reads back as the lines of its window. */
  lemma ParsedChunkLines(content: string, size: int, overlap: int, maxLen: int, j: nat)
    requires size >= 1 && size - overlap >= 1
    requires j < |Split(Parsed(SplitLines(content)), size, overlap, maxLen)|
    ensures var chat := Parsed(SplitLines(content));
            SplitOn(Split(chat, size, overlap, maxLen)[j], '\n') == Rendered(Windows(chat, size, overlap)[j], maxLen)
  {
    ParsedUnbroken(content);
    SplitChunkLines(Parsed(SplitLines(content)), size, overlap, maxLen, j);
  }

  /** A single message split one at a time makes one chunk: its own line. */
  lemma SingleWindow(m: Message, maxLen: int)
    ensures Split([m], 1, 0, maxLen) == [Line(m, maxLen)]
  {
    var w := Windows([m], 1, 0);
    assert w == [Slice([m], 0, 1)] + WindowsFrom([m], 1, 1, 1);
    SliceForward([m], 0, 1);
    assert [m][0..1] == [m];
    assert w == [[m]];
    assert Rendered([m], maxLen) == [Line(m, maxLen)];
    assert Chunk([m], maxLen) == Line(m, maxLen);
    assert Chunks([[m]], maxLen) == [Chunk([m], maxLen)];
  }

  lemma RenderNewYear2020()
    ensures FormatMinute(DateTime(2020, 1, 1, 0, 0)) == "2020-01-01 00:00"
  {
  }

  /** One message of a hundred `X`s from Alice, cut at 50, split one at a time. */
  lemma SplitLongMessageExample()
    ensures Split([Message(DateTime(2020, 1, 1, 0, 0), "Alice", seq(100, _ => 'X'))], 1, 0, 50)
            == ["2020-01-01 00:00 - Alice: " + seq(50, _ => 'X') + "..."]
  {
    var m := Message(DateTime(2020, 1, 1, 0, 0), "Alice", seq(100, _ => 'X'));
    var head, xs := "2020-01-01 00:00 - Alice: ", seq(50, _ => 'X');
    SingleWindow(m, 50);
    TruncateExample();
    RenderNewYear2020();
    LineParts(m, 50, "2020-01-01 00:00" + " - " + "Alice" + ": ", xs + "...");
    AliceHead();
    assert (head + xs) + "..." == head + (xs + "...");
  }

  lemma LineParts(m: Message, maxLen: int, head: string, text: string)
    requires head == FormatMinute(m.time) + " - " + m.user + ": " && text == Truncate(m.message, maxLen)
    ensures Line(m, maxLen) == head + text
  {
  }

  lemma AliceHead()
    ensures "2020-01-01 00:00" + " - " + "Alice" + ": " == "2020-01-01 00:00 - Alice: "
  {
  }

  // ---------------------------------------------------------------------------
  // Retrieval

  /** `docs[:k]` of the backend's ranked list. */
  function TopK(ranked: seq<string>, k: int): (docs: seq<string>)
    ensures k >= 0 ==> |docs| == (if k <= |ranked| then k else |ranked|) && docs == ranked[..|docs|]
  {
    Slice(ranked, 0, k)
  }

  /** `retrieve`: the page contents of the top `k` documents, separated by blank lines. */
  function Retrieve(ranked: seq<string>, k: int := 3): (text: string)
    ensures k == 0 || ranked == [] ==> text == ""
    ensures k >= 1 && ranked != [] ==> ranked[0] <= text
  {
    var docs := TopK(ranked, k);
    if docs == [] then "" else JoinHead(docs, "\n\n"); Join(docs, "\n\n")
  }

  /** Default `k = 3`: the first three documents, or all of them when there are fewer. */
  lemma RetrieveDefault(ranked: seq<string>)
    ensures Retrieve(ranked) == Retrieve(ranked, 3)
    ensures |ranked| >= 3 ==> Retrieve(ranked) == ranked[0] + "\n\n" + ranked[1] + "\n\n" + ranked[2]
    ensures |ranked| < 3 ==> Retrieve(ranked) == Join(ranked, "\n\n")
  {
    if |ranked| >= 3 {
      RetrieveEnds(ranked);
      RetrieveMore(ranked, 1);
      RetrieveMore(ranked, 2);
    } else {
      assert TopK(ranked, 3) == ranked;
    }
  }

  /** The first part starts the joined text. */
  lemma JoinHead(parts: seq<string>, sep: string)
    requires parts != []
    ensures parts[0] <= Join(parts, sep)
  {
    if |parts| > 1 {
      var rest := sep + Join(parts[1..], sep);
      assert parts[0] + sep + Join(parts[1..], sep) == parts[0] + rest;
      assert (parts[0] + rest)[..|parts[0]|] == parts[0];
    }
  }

  /** Asking for one more document adds it after a blank line, while there is one. */
  lemma RetrieveMore(ranked: seq<string>, k: nat)
    requires 1 <= k < |ranked|
    ensures Retrieve(ranked, k + 1) == Retrieve(ranked, k) + "\n\n" + ranked[k]
  {
    JoinSnoc(ranked[..k], "\n\n", ranked[k]);
    assert ranked[..k + 1] == ranked[..k] + [ranked[k]];
  }

  /** The best document alone comes back as it is; nothing comes back for `k = 0`. */
  lemma RetrieveEnds(ranked: seq<string>)
    ensures Retrieve(ranked, 0) == ""
    ensures ranked != [] ==> Retrieve(ranked, 1) == ranked[0]
  {
    if ranked != [] {
      assert TopK(ranked, 1) == [ranked[0]];
    }
  }

  lemma {:induction false} JoinSnoc(parts: seq<string>, sep: string, x: string)
    requires parts != []
    ensures Join(parts + [x], sep) == Join(parts, sep) + sep + x
    decreases |parts|
  {
    if |parts| == 1 {
      assert parts + [x] == [parts[0], x];
      assert [parts[0], x][1..] == [x];
    } else {
      assert (parts + [x])[1..] == parts[1..] + [x];
      JoinSnoc(parts[1..], sep, x);
    }
  }
}
