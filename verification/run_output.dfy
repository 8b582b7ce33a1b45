/** How `execute_streaming` turns a finished child process into the string stored as
    the task's `last_result`: the accumulated output is cut to its last 20 KiB behind a
    header, then wrapped according to how the process ended. Also the bookkeeping of
    each pipe-reader thread, which decodes every read, appends it to the accumulated
    output and emits it as a `task-output` event.

    Rust measures and slices strings in UTF-8 bytes; the model keeps strings as
    sequences of characters and counts their UTF-8 width explicitly. */
module RunOutput {

  import opened Options
  import opened Text
  import Numerals

  /** `MAX_LOG_SIZE`: 20 KiB. */
  const MaxLogSize: nat := 20 * 1024

  // ---------------------------------------------------------------------------
  // UTF-8 lengths and byte positions

  /** The number of bytes UTF-8 uses for `c`. */
  function Utf8Width(c: char): nat {
    var v := c as int;
    if v < 0x80 then 1 else if v < 0x800 then 2 else if v < 0x1_0000 then 3 else 4
  }

  /** `str::len`: the length of `s` in UTF-8 bytes. */
  function ByteLen(s: string): nat
    decreases |s|
  {
    if |s| == 0 then 0 else Utf8Width(s[0]) + ByteLen(s[1..])
  }

  lemma {:induction false} ByteLenAppend(a: string, b: string)
    ensures ByteLen(a + b) == ByteLen(a) + ByteLen(b)
    decreases |a|
  {
    if |a| > 0 {
      assert (a + b)[0] == a[0];
      assert (a + b)[1..] == a[1..] + b;
      ByteLenAppend(a[1..], b);
    } else {
      assert a + b == b;
    }
  }

  lemma {:induction false} ByteLenAtLeastLength(s: string)
    ensures ByteLen(s) >= |s|
    decreases |s|
  {
    if |s| > 0 {
      ByteLenAtLeastLength(s[1..]);
    }
  }

  /** Byte offsets of character positions grow strictly with the position. */
  lemma ByteLenPrefixMonotone(s: string, i: nat, j: nat)
    requires i <= j <= |s|
    ensures ByteLen(s[..i]) + (j - i) <= ByteLen(s[..j])
  {
    assert s[..j] == s[..i] + s[i..j];
    ByteLenAppend(s[..i], s[i..j]);
    ByteLenAtLeastLength(s[i..j]);
  }

  lemma ByteLenStep(s: string, i: nat)
    requires i < |s|
    ensures ByteLen(s[..i + 1]) == ByteLen(s[..i]) + Utf8Width(s[i])
  {
    assert s[..i + 1] == s[..i] + [s[i]];
    ByteLenAppend(s[..i], [s[i]]);
  }

  /** The character position at which byte offset `k` of `s` starts, if `k` is a
      character boundary (`str::is_char_boundary`). */
  function BoundaryAt(s: string, k: nat): (r: Option<nat>)
    ensures r.Some? ==> r.value <= |s| && ByteLen(s[..r.value]) == k
    decreases |s|
  {
    if k == 0 then Some(0)
    else if |s| == 0 || Utf8Width(s[0]) > k then None
    else
      match BoundaryAt(s[1..], k - Utf8Width(s[0]))
      case None => None
      case Some(i) =>
        assert s[..i + 1] == [s[0]] + s[1..][..i];
        assert s[..i + 1][1..] == s[1..][..i];
        Some(i + 1)
  }

  /** A byte offset that no character position reaches is reported as no boundary. */
  lemma {:induction false} BoundaryAtComplete(s: string, k: nat, i: nat)
    requires i <= |s| && ByteLen(s[..i]) == k
    ensures BoundaryAt(s, k) == Some(i)
    decreases |s|
  {
    if k == 0 {
      if i > 0 { ByteLenPrefixMonotone(s, 0, i); }
    } else {
      assert i > 0;
      assert s[..i] == [s[0]] + s[1..][..i - 1];
      assert s[..i][1..] == s[1..][..i - 1];
      BoundaryAtComplete(s[1..], k - Utf8Width(s[0]), i - 1);
    }
  }

  /** The first character position whose byte offset is at least `k`. */
  function CeilBoundary(s: string, k: nat): (i: nat)
    requires k <= ByteLen(s)
    ensures i <= |s|
    ensures k <= ByteLen(s[..i])
    ensures i > 0 ==> ByteLen(s[..i - 1]) < k
    decreases |s|
  {
    if k == 0 then 0
    else
      var w := Utf8Width(s[0]);
      var j := CeilBoundary(s[1..], if w >= k then 0 else k - w);
      ByteLenPrefixCons(s, j);
      if j > 0 then ByteLenPrefixCons(s, j - 1); j + 1 else j + 1
  }

  lemma ByteLenPrefixCons(s: string, j: nat)
    requires j < |s|
    ensures ByteLen(s[..j + 1]) == Utf8Width(s[0]) + ByteLen(s[1..][..j])
  {
    assert s[..j + 1][1..] == s[1..][..j];
  }

  // ---------------------------------------------------------------------------
  // truncation

  /** The line put in front of a truncated log. */
  function TruncationHeader(hidden: nat): string {
    "... [Output Truncated, " + Numerals.Decimal(hidden) + " bytes hidden] ...\n"
  }

  /** What lines 430-436 of the backend produce: the text, or a panic, because
      `&final_output[len - MAX_LOG_SIZE..]` slices by byte offset and Rust panics when
      that offset falls inside a multi-byte character. */
  datatype Truncation = Truncated(text: string) | SlicePanic

  /** The truncation as written. */
  function TruncateAsWritten(out: string): Truncation {
    var n := ByteLen(out);
    if n <= MaxLogSize then Truncated(out)
    else
      match BoundaryAt(out, n - MaxLogSize)
      case None => SlicePanic
      case Some(i) => Truncated(TruncationHeader(n - MaxLogSize) + out[i..])
  }

  /** The truncation as intended: the cut moves forward to the next character
      boundary, so it keeps whole characters, never panics, and the header counts the
      bytes actually hidden. */
  function Truncate(out: string): string {
    if ByteLen(out) <= MaxLogSize then out
    else
      var i := CutPoint(out);
      TruncationHeader(ByteLen(out[..i])) + out[i..]
  }

  /** Where the corrected truncation cuts a long log: the first character boundary at
      or after the byte offset that leaves exactly 20 KiB. */
  function CutPoint(out: string): (i: nat)
    requires ByteLen(out) > MaxLogSize
    ensures i <= |out|
  {
    CeilBoundary(out, ByteLen(out) - MaxLogSize)
  }

  /** Short output is kept whole; long output becomes a header naming the number of
      hidden bytes, followed by a suffix of the output that holds the last 20 KiB up to
      at most three bytes of a split character, and together with the hidden bytes
      accounts for all of it. */
  lemma TruncateSpec(out: string)
    ensures ByteLen(out) <= MaxLogSize ==> Truncate(out) == out
    ensures ByteLen(out) > MaxLogSize ==>
      exists i :: 0 < i <= |out|
        && Truncate(out) == TruncationHeader(ByteLen(out[..i])) + out[i..]
        && ByteLen(out[..i]) + ByteLen(out[i..]) == ByteLen(out)
        && MaxLogSize - 3 <= ByteLen(out[i..]) <= MaxLogSize
        && ByteLen(out[i - 1..]) > MaxLogSize
  {
    if ByteLen(out) > MaxLogSize {
      var i := CutPoint(out);
      CutPointSpec(out);
      assert Truncate(out) == TruncationHeader(ByteLen(out[..i])) + out[i..];
    }
  }

  /** The cut splits the bytes into the hidden prefix and a kept suffix of 20 KiB less
      at most the three bytes of a split character. */
  lemma CutPointSpec(out: string)
    requires ByteLen(out) > MaxLogSize
    ensures 0 < CutPoint(out)
    ensures ByteLen(out[..CutPoint(out)]) + ByteLen(out[CutPoint(out)..]) == ByteLen(out)
    ensures MaxLogSize - 3 <= ByteLen(out[CutPoint(out)..]) <= MaxLogSize
    ensures ByteLen(out[CutPoint(out) - 1..]) > MaxLogSize
  {
    var i := CutPoint(out);
    var k := ByteLen(out) - MaxLogSize;
    assert out == out[..i] + out[i..];
    ByteLenAppend(out[..i], out[i..]);
    ByteLenStep(out, i - 1);
    assert out[..i - 1 + 1] == out[..i];
    var before := ByteLen(out[..i - 1]);
    var w := Utf8Width(out[i - 1]);
    assert before < k && w <= 4;
    assert ByteLen(out[..i]) == before + w;
    assert out == out[..i - 1] + out[i - 1..];
    ByteLenAppend(out[..i - 1], out[i - 1..]);
  }

  /** Wherever the written slice does not panic, it keeps exactly the last 20 KiB and
      the header counts exactly the bytes before them. */
  lemma TruncateExactWhenNoPanic(out: string)
    requires ByteLen(out) > MaxLogSize
    requires TruncateAsWritten(out).Truncated?
    ensures exists i ::
      && 0 < i <= |out|
      && TruncateAsWritten(out).text == TruncationHeader(ByteLen(out) - MaxLogSize) + out[i..]
      && ByteLen(out[..i]) == ByteLen(out) - MaxLogSize
      && ByteLen(out[i..]) == MaxLogSize
  {
    var k := ByteLen(out) - MaxLogSize;
    var i := BoundaryAt(out, k).value;
    BoundaryAtPositive(out, k);
    assert TruncateAsWritten(out).text == TruncationHeader(k) + out[i..];
    ByteLenSplit(out, i);
  }

  /** A boundary past a positive number of bytes lies past the first character. */
  lemma BoundaryAtPositive(s: string, k: nat)
    requires k > 0 && BoundaryAt(s, k).Some?
    ensures BoundaryAt(s, k).value > 0
  {
  }

  /** The bytes before and from a position add up to the whole. */
  lemma ByteLenSplit(s: string, i: nat)
    requires i <= |s|
    ensures ByteLen(s[..i]) + ByteLen(s[i..]) == ByteLen(s)
  {
    assert s == s[..i] + s[i..];
    ByteLenAppend(s[..i], s[i..]);
  }

  /** A truncated log begins with its header, whose first character is a dot. */
  lemma TruncateLongStartsWithDot(out: string)
    requires ByteLen(out) > MaxLogSize
    ensures |Truncate(out)| > 0 && Truncate(out)[0] == '.'
  {
    var i := CutPoint(out);
    var h := TruncationHeader(ByteLen(out[..i]));
    assert h[0] == '.';
    assert (h + out[i..])[0] == h[0];
  }

  /** Wherever the written code does not panic, the corrected truncation agrees with it. */
  lemma TruncateAgrees(out: string)
    requires TruncateAsWritten(out).Truncated?
    ensures Truncate(out) == TruncateAsWritten(out).text
  {
    var n := ByteLen(out);
    if n > MaxLogSize {
      var k := n - MaxLogSize;
      var b := BoundaryAt(out, k).value;
      var c := CutPoint(out);
      if c < b {
        ByteLenPrefixMonotone(out, c, b);
      } else if c > b {
        ByteLenPrefixMonotone(out, b, c - 1);
      }
    }
  }

  function Repeat(c: char, n: nat): (s: string)
    ensures |s| == n && forall i :: 0 <= i < n ==> s[i] == c
  {
    seq(n, _ => c)
  }

  lemma {:induction false} ByteLenRepeat(c: char, n: nat)
    ensures ByteLen(Repeat(c, n)) == n * Utf8Width(c)
    decreases n
  {
    if n > 0 {
      assert Repeat(c, n)[1..] == Repeat(c, n - 1);
      ByteLenRepeat(c, n - 1);
    }
  }

  /** The panic, concretely: 6827 copies of U+4E2D (three bytes each) are 20481 bytes,
      and byte offset 1, where the kept tail would start, lies inside the first one. */
  lemma TruncateAsWrittenPanics()
    ensures TruncateAsWritten(Repeat('\U{4E2D}', 6827)) == SlicePanic
    ensures Truncate(Repeat('\U{4E2D}', 6827)) == TruncationHeader(3) + Repeat('\U{4E2D}', 6826)
  {
    var out := Repeat('\U{4E2D}', 6827);
    ByteLenRepeat('\U{4E2D}', 6827);
    assert ByteLen(out) == 20481;
    assert Utf8Width(out[0]) == 3;
    assert BoundaryAt(out, 1) == None;
    var i := CutPoint(out);
    assert out[..1] == ['\U{4E2D}'];
    assert ByteLen(out[..1]) == 3;
    assert i == 1;
    assert out[1..] == Repeat('\U{4E2D}', 6826);
  }

  // ---------------------------------------------------------------------------
  // the result string

  /** The process's exit status: its exit code, absent when a signal ended it. */
  datatype ExitStatus = ExitStatus(code: Option<int>) {
    /** `ExitStatus::success`: exit code zero. */
    predicate Success() {
      code == Some(0)
    }
  }

  /** How one execution ended, with the output accumulated from both pipes. */
  datatype Outcome =
    | SpawnFailed(error: string)
    | WaitFailed(error: string, output: string)
    | Exited(status: ExitStatus, output: string)

  const SuccessMarker: string := "Success"

  /** The `last_result` an execution ends with, given the text the accumulated output
      was cut to. */
  function Compose(o: Outcome, text: string): string {
    match o
    case SpawnFailed(e) => "Execution Failed: " + e
    case WaitFailed(e, _) => "Process Error: " + e + "\nOutput:\n" + text
    case Exited(status, _) =>
      if status.Success() then
        SuccessOrOutput(text)
      else
        "Error (Exit Code " + Numerals.SignedDecimal(status.code.GetOr(-1)) + "):\n" + text
  }

  /** The `last_result` an execution ends with, over the corrected cut. */
  function ResultText(o: Outcome): string {
    if o.SpawnFailed? then Compose(o, "") else Compose(o, Truncate(o.output))
  }

  /** The same over the cut as written: `None` when the byte slice panics, which ends
      the run thread before it records any result. */
  function ResultTextAsWritten(o: Outcome): (r: Option<string>)
    ensures r.None? <==> !o.SpawnFailed? && TruncateAsWritten(o.output).SlicePanic?
  {
    if o.SpawnFailed? then Some(Compose(o, ""))
    else
      match TruncateAsWritten(o.output)
      case SlicePanic => None
      case Truncated(text) => Some(Compose(o, text))
  }

  /** Wherever the written code records a result, it is the one the corrected cut
      gives. */
  lemma ResultTextAgrees(o: Outcome)
    ensures ResultTextAsWritten(o).Some? ==> ResultTextAsWritten(o).value == ResultText(o)
  {
    if !o.SpawnFailed? && TruncateAsWritten(o.output).Truncated? {
      TruncateAgrees(o.output);
    }
  }

  /** With the output of the panic example, the written code records nothing, whatever
      the exit status, while the corrected cut records a result. */
  lemma PanicLosesResult(status: ExitStatus, error: string)
    ensures ResultTextAsWritten(Exited(status, Repeat('\U{4E2D}', 6827))).None?
    ensures ResultTextAsWritten(WaitFailed(error, Repeat('\U{4E2D}', 6827))).None?
  {
    TruncateAsWrittenPanics();
  }

  /** A truncated log always carries its header, so it is never blank. */
  lemma TruncateBlank(out: string)
    ensures IsBlank(Truncate(out)) <==> ByteLen(out) <= MaxLogSize && IsBlank(out)
  {
    if ByteLen(out) > MaxLogSize {
      TruncateLongStartsWithDot(out);
    }
  }

  /** The classification of an execution by its result string. */
  lemma ResultTextSpec(o: Outcome)
    ensures o.SpawnFailed? ==> ResultText(o) == "Execution Failed: " + o.error
    ensures o.WaitFailed? ==> StartsWith(ResultText(o), "Process Error: ")
    ensures o.Exited? && o.status.Success() ==>
      (ResultText(o) == SuccessMarker <==>
        ByteLen(o.output) <= MaxLogSize && (IsBlank(o.output) || o.output == SuccessMarker))
    ensures o.Exited? && o.status.Success() && !(ByteLen(o.output) <= MaxLogSize && IsBlank(o.output)) ==>
      ResultText(o) == Truncate(o.output)
    ensures o.Exited? && !o.status.Success() ==>
      ResultText(o) == "Error (Exit Code " + Numerals.SignedDecimal(o.status.code.GetOr(-1))
        + "):\n" + Truncate(o.output)
  {
    match o
    case SpawnFailed(_) =>
    case WaitFailed(e, out) =>
      var rest := e + "\nOutput:\n" + Truncate(out);
      assert ResultText(o) == "Process Error: " + rest;
      assert ("Process Error: " + rest)[..15] == "Process Error: ";
    case Exited(status, out) =>
      if status.Success() {
        SuccessText(out);
      }
  }

  /** What a successful run records: "Success" for blank (truncated) output, the
      output otherwise. */
  function SuccessOrOutput(text: string): string {
    if Trim(text) == [] then SuccessMarker else text
  }

  /** "Success" is recorded exactly for blank text and for the text "Success" itself;
      any other text is recorded as it is. */
  lemma SuccessOrOutputSpec(text: string)
    ensures SuccessOrOutput(text) == SuccessMarker <==> IsBlank(text) || text == SuccessMarker
    ensures !IsBlank(text) ==> SuccessOrOutput(text) == text
  {
    TrimEmptyIffBlank(text);
    if text == SuccessMarker {
      assert !IsWhitespace(text[0]);
    }
  }

  /** The text of a successful run: "Success" exactly for short blank output and for
      the output "Success" itself, the truncated output otherwise. */
  lemma SuccessText(out: string)
    ensures SuccessOrOutput(Truncate(out)) == SuccessMarker <==>
      ByteLen(out) <= MaxLogSize && (IsBlank(out) || out == SuccessMarker)
    ensures !(ByteLen(out) <= MaxLogSize && IsBlank(out)) ==> SuccessOrOutput(Truncate(out)) == Truncate(out)
  {
    if ByteLen(out) > MaxLogSize {
      LongTextNotBlank(out);
      TrimEmptyIffBlank(Truncate(out));
      SuccessOrOutputSpec(Truncate(out));
    } else {
      assert Truncate(out) == out;
      SuccessOrOutputSpec(out);
    }
  }

  /** A truncated log neither trims to nothing nor reads "Success". */
  lemma LongTextNotBlank(out: string)
    requires ByteLen(out) > MaxLogSize
    ensures Trim(Truncate(out)) != []
    ensures Truncate(out) != SuccessMarker
  {
    var text := Truncate(out);
    TruncateLongStartsWithDot(out);
    assert !IsWhitespace(text[0]);
    TrimEmptyIffBlank(text);
    assert text[0] != SuccessMarker[0];
  }

  // ---------------------------------------------------------------------------
  // the pipe readers

  /** The message a stdout read emits: the pending bytes as UTF-8 if they are valid,
      else their GBK decoding. Lines 261-301 take the GBK text whether or not the
      decoder reported errors. */
  function StdoutMessage(
    pending: seq<bv8>, utf8: seq<bv8> -> Option<string>,
    gbk: seq<bv8> -> (string, bool)): string
  {
    match utf8(pending)
    case Some(s) => s
    case None =>
      var (res, errors) := gbk(pending);
      if !errors then res else gbk(pending).0
  }

  /** The message a stderr read emits (lines 331-352). */
  function StderrMessage(
    pending: seq<bv8>, utf8: seq<bv8> -> Option<string>,
    gbk: seq<bv8> -> (string, bool)): string
  {
    match utf8(pending)
    case Some(s) => s
    case None => gbk(pending).0
  }

  /** Both readers decode identically: the stdout reader's two GBK branches coincide. */
  lemma ReadersDecodeAlike(
    pending: seq<bv8>, utf8: seq<bv8> -> Option<string>, gbk: seq<bv8> -> (string, bool))
    ensures StdoutMessage(pending, utf8, gbk) == StderrMessage(pending, utf8, gbk)
  {
  }

  /** One reader thread's state: the shared accumulator as this reader sees it, the
      undecoded bytes, and the messages emitted so far. */
  datatype Reader = Reader(acc: string, pending: seq<bv8>, emitted: seq<string>)

  /** One successful read of `chunk`: decode the pending bytes plus the chunk, append
      the text to the accumulator, emit it, clear the pending bytes. */
  function ReadChunk(r: Reader, chunk: seq<bv8>, decode: seq<bv8> -> string): Reader {
    var msg := decode(r.pending + chunk);
    Reader(r.acc + msg, [], r.emitted + [msg])
  }

  function ReadAll(r: Reader, chunks: seq<seq<bv8>>, decode: seq<bv8> -> string): Reader
    decreases |chunks|
  {
    if |chunks| == 0 then r
    else ReadChunk(ReadAll(r, chunks[..|chunks| - 1], decode), chunks[|chunks| - 1], decode)
  }

  /** The flush after end of stream (lines 308-315): emits the lossy decoding of any
      bytes still pending. */
  function Flush(r: Reader, lossy: seq<bv8> -> string): Reader {
    if r.pending == [] then r
    else
      var msg := lossy(r.pending);
      Reader(r.acc + msg, [], r.emitted + [msg])
  }

  /** Reading from a reader with nothing pending: one message per read, each the
      decoding of that read alone, all appended to the accumulator, nothing left over. */
  lemma {:induction false} ReadAllSpec(acc: string, chunks: seq<seq<bv8>>, decode: seq<bv8> -> string)
    ensures
      var r := ReadAll(Reader(acc, [], []), chunks, decode);
      && r.pending == []
      && |r.emitted| == |chunks|
      && (forall k :: 0 <= k < |chunks| ==> r.emitted[k] == decode(chunks[k]))
      && r.acc == acc + Concat(r.emitted)
    decreases |chunks|
  {
    if |chunks| > 0 {
      var init := chunks[..|chunks| - 1];
      var last := chunks[|chunks| - 1];
      ReadAllSpec(acc, init, decode);
      var before := ReadAll(Reader(acc, [], []), init, decode);
      var msg := decode(last);
      assert before.pending + last == last;
      var r := ReadAll(Reader(acc, [], []), chunks, decode);
      assert r == Reader(before.acc + msg, [], before.emitted + [msg]);
      forall k | 0 <= k < |chunks| ensures r.emitted[k] == decode(chunks[k]) {
        if k < |init| { assert r.emitted[k] == before.emitted[k] && chunks[k] == init[k]; }
      }
      ConcatSnoc(before.emitted, msg);
    }
  }

  /** A reader that starts with nothing pending emits exactly one message per read,
      the decoding of that read alone; what it appends to the accumulator is exactly
      the concatenation of what it emits; and the end-of-stream flush never has
      anything to emit. */
  lemma ReaderEmitsWhatItAccumulates(
    acc: string, chunks: seq<seq<bv8>>, decode: seq<bv8> -> string, lossy: seq<bv8> -> string)
    ensures
      var r := Flush(ReadAll(Reader(acc, [], []), chunks, decode), lossy);
      && r.pending == []
      && |r.emitted| == |chunks|
      && (forall k :: 0 <= k < |chunks| ==> r.emitted[k] == decode(chunks[k]))
      && r.acc == acc + Concat(r.emitted)
  {
    ReadAllSpec(acc, chunks, decode);
  }
}
