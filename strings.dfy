/**
 * The string buffer writers of the V8 shim (`String::WriteUtf8`,
 * `String::WriteAscii`, `String::Write`) and the `AsciiValue` /
 * `Utf8Value` conversions built on them.
 *
 * The engine's part is an input: `JS_EncodeStringToBuffer` is an
 * `EncoderOutput` (the bytes it stores at the start of the buffer and the
 * `size_t` count it returns), `JS_GetStringLength` and
 * `JS_GetStringEncodingLength` are the two numbers of a `JsString`, and
 * `JS_GetStringCharsZAndLength` is an optional sequence of UTF-16 code
 * units.  What is proved is the shim's own buffer arithmetic.  `char`
 * buffers hold `uint8` values (a C `int` argument stays within 32 bits).
 */
module StringWriters {
  import opened Machine
  import opened Handles

  /** What `JS_EncodeStringToBuffer` did: the bytes stored at `buffer[0..]` and the count returned. */
  datatype EncoderOutput = EncoderOutput(bytes: seq<uint8>, count: nat)

  /** `JS_GetStringLength` (UTF-16 units) and `JS_GetStringEncodingLength` (UTF-8 bytes) of one string. */
  datatype JsString = JsString(length: nat, encodedLength: nat)

  /** The encoder wrote every byte of the encoding and reported exactly that many. */
  predicate FullEncoding(encodedLength: nat, enc: EncoderOutput) {
    enc.count == |enc.bytes| == encodedLength
  }

  /** A value of C type `int`. */
  predicate IsInt(x: int) {
    -TWO_31 <= x < TWO_31
  }

  /** An `int*` out-parameter. */
  class IntCell {
    var value: int

    constructor ()
      ensures value == 0
    {
      value := 0;
    }
  }

  /*
   * String::WriteUtf8
   */

  /** `bytesWritten < size_t(length)`: there is room for the terminator. */
  predicate Terminates(length: int, enc: EncoderOutput, ws: WordSize) {
    enc.count < ToSize(length, ws)
  }

  /** Every store `WriteUtf8` makes falls inside a buffer of `bufferLength` bytes. */
  predicate Utf8Fits(bufferLength: nat, length: int, enc: EncoderOutput, ws: WordSize) {
    |enc.bytes| <= bufferLength && (Terminates(length, enc, ws) ==> enc.count < bufferLength)
  }

  /** The buffer after `WriteUtf8`: the encoder's bytes, then a NUL at `count` when there is room. */
  function Utf8Written(before: seq<uint8>, length: int, enc: EncoderOutput, ws: WordSize): (after: seq<uint8>)
    requires Utf8Fits(|before|, length, enc, ws)
    ensures |after| == |before|
    ensures forall k :: 0 <= k < |before| ==>
              after[k] == if Terminates(length, enc, ws) && k == enc.count then 0
                          else if k < |enc.bytes| then enc.bytes[k]
                          else before[k]
  {
    var encoded := Overwrite(before, 0, enc.bytes);
    if Terminates(length, enc, ws) then encoded[enc.count := 0] else encoded
  }

  /** What `WriteUtf8` returns: the count, plus one for a stored terminator, cast to `int`. */
  function Utf8Result(length: int, enc: EncoderOutput, ws: WordSize): (r: int)
    ensures IsInt(r)
    ensures enc.count + 1 < TWO_31 ==> r == enc.count + if Terminates(length, enc, ws) then 1 else 0
  {
    if Terminates(length, enc, ws) then Int32Of(enc.count + 1) else Int32Of(enc.count)
  }

  /**
   * The result counts the terminator exactly when one was stored, and
   * nothing past the encoded bytes changes except that terminator.
   */
  lemma Utf8Termination(before: seq<uint8>, length: int, enc: EncoderOutput, ws: WordSize)
    requires Utf8Fits(|before|, length, enc, ws)
    requires enc.count + 1 < TWO_31
    ensures Utf8Result(length, enc, ws) == enc.count + 1 <==> Terminates(length, enc, ws)
    ensures Utf8Result(length, enc, ws) == enc.count <==> !Terminates(length, enc, ws)
    ensures Terminates(length, enc, ws) ==> Utf8Written(before, length, enc, ws)[enc.count] == 0
    ensures forall k :: |enc.bytes| <= k < |before| && !(Terminates(length, enc, ws) && k == enc.count) ==>
              Utf8Written(before, length, enc, ws)[k] == before[k]
  {
  }

  /**
   * `WriteUtf8(buffer, length, nchars_ref)`.  `strLength` is what
   * `Length()` returns; it is stored through a non-null `nchars_ref`
   * whether or not the string was truncated.
   */
  method WriteUtf8(buffer: array<uint8>, length: int, enc: EncoderOutput, ncharsRef: IntCell?, strLength: int, ws: WordSize)
    returns (r: int)
    requires Utf8Fits(buffer.Length, length, enc, ws)
    modifies buffer, ncharsRef
    ensures buffer[..] == Utf8Written(old(buffer[..]), length, enc, ws)
    ensures r == Utf8Result(length, enc, ws)
    ensures ncharsRef != null ==> ncharsRef.value == strLength
  {
    forall k | 0 <= k < |enc.bytes| {  // JS_EncodeStringToBuffer(*this, buffer, length)
      buffer[k] := enc.bytes[k];
    }
    var bytesWritten := enc.count;
    if bytesWritten < ToSize(length, ws) {
      buffer[bytesWritten] := 0;
      bytesWritten := bytesWritten + 1;
    }
    if ncharsRef != null {
      ncharsRef.value := strLength;
    }
    r := Int32Of(bytesWritten);
  }

  /*
   * String::WriteAscii
   */

  /** The bytes of `s` that are at most 0x7F, in order. */
  function AsciiFilter(s: seq<uint8>): (r: seq<uint8>)
    ensures |r| <= |s|
    ensures forall k :: 0 <= k < |r| ==> r[k] <= 0x7F
  {
    if s == [] then []
    else
      var last := s[|s| - 1];
      AsciiFilter(s[..|s| - 1]) + (if last <= 0x7F then [last] else [])
  }

  /** Filtering distributes over concatenation. */
  lemma {:induction false} AsciiFilterAppend(a: seq<uint8>, b: seq<uint8>)
    ensures AsciiFilter(a + b) == AsciiFilter(a) + AsciiFilter(b)
    decreases |b|
  {
    if b == [] {
      assert a + b == a;
    } else {
      var b' := b[..|b| - 1];
      assert (a + b)[..|a + b| - 1] == a + b';
      AsciiFilterAppend(a, b');
    }
  }

  /** Filtering changes nothing exactly when every byte is ASCII. */
  lemma {:induction false} AsciiFilterIdentity(s: seq<uint8>)
    ensures AsciiFilter(s) == s <==> forall k :: 0 <= k < |s| ==> s[k] <= 0x7F
  {
    if s != [] && forall k :: 0 <= k < |s| ==> s[k] <= 0x7F {
      var s' := s[..|s| - 1];
      AsciiFilterIdentity(s');
      assert forall k :: 0 <= k < |s'| ==> s'[k] == s[k];
      assert s' + [s[|s| - 1]] == s;
    }
  }

  /** Filtering twice is filtering once. */
  lemma AsciiFilterIdempotent(s: seq<uint8>)
    ensures AsciiFilter(AsciiFilter(s)) == AsciiFilter(s)
  {
    AsciiFilterIdentity(AsciiFilter(s));
  }

  /** One more byte read by the copy loop: it is kept iff it is ASCII, and the kept prefix stays a prefix. */
  lemma AsciiFilterStep(src: seq<uint8>, from: nat, i: nat, to: nat)
    requires from <= i < to <= |src|
    ensures AsciiFilter(src[from..i + 1]) == AsciiFilter(src[from..i]) + (if src[i] <= 0x7F then [src[i]] else [])
    ensures |AsciiFilter(src[from..i + 1])| <= |AsciiFilter(src[from..to])|
  {
    assert src[from..i + 1][..i - from] == src[from..i];
    assert src[from..i + 1] + src[i + 1..to] == src[from..to];
    AsciiFilterAppend(src[from..i + 1], src[i + 1..to]);
  }

  /** `tmp[from .. to)`, empty when the range is empty. */
  function Slice(tmp: seq<uint8>, from: int, to: int): (r: seq<uint8>)
    requires 0 <= from && (from < to ==> to <= |tmp|)
    ensures |r| == if from < to then to - from else 0
  {
    if from < to then tmp[from..to] else []
  }

  /** Every store of the copy loop and of the terminator falls inside a buffer of `bufferLength` bytes. */
  predicate OutputFits(bufferLength: nat, kept: nat, limit: int) {
    kept <= bufferLength && (kept <= limit ==> kept < bufferLength)
  }

  /** The buffer after the copy loop: the kept bytes, then a NUL when `idx <= length`. */
  function AsciiOutput(before: seq<uint8>, kept: seq<uint8>, limit: int): (after: seq<uint8>)
    requires OutputFits(|before|, |kept|, limit)
    ensures |after| == |before|
    ensures forall k :: 0 <= k < |before| ==>
              after[k] == if k < |kept| then kept[k]
                          else if k == |kept| && |kept| <= limit then 0
                          else before[k]
  {
    var copied := Overwrite(before, 0, kept);
    if |kept| <= limit then copied[|kept| := 0] else copied
  }

  /**
   * The copy loop and terminator of `WriteAscii`: the ASCII bytes of
   * `tmp[from .. to)` go to `buffer[0 .. idx)` in order, and a NUL to
   * `buffer[idx]` when `idx <= limit`.
   */
  method CopyAscii(buffer: array<uint8>, tmp: array<uint8>, from: int, to: int, limit: int) returns (idx: int)
    requires buffer != tmp
    requires 0 <= from && (from < to ==> to <= tmp.Length)
    requires OutputFits(buffer.Length, |AsciiFilter(Slice(tmp[..], from, to))|, limit)
    modifies buffer
    ensures idx == |AsciiFilter(Slice(tmp[..], from, to))|
    ensures buffer[..] == AsciiOutput(old(buffer[..]), AsciiFilter(Slice(tmp[..], from, to)), limit)
  {
    ghost var src := tmp[..];
    ghost var kept := AsciiFilter(Slice(src, from, to));
    idx := 0;
    if from < to {
      var i := from;
      assert src[from..i] == [];
      while i < to
        invariant from <= i <= to && tmp[..] == src
        invariant idx == |AsciiFilter(src[from..i])| <= |kept|
        invariant buffer[..] == Overwrite(old(buffer[..]), 0, AsciiFilter(src[from..i]))
        modifies buffer
      {
        ghost var done := AsciiFilter(src[from..i]);
        AsciiFilterStep(src, from, i, to);
        if tmp[i] <= 0x7F {
          OverwriteSnoc(old(buffer[..]), done, tmp[i]);
          buffer[idx] := tmp[i];
          idx := idx + 1;
        }
        i := i + 1;
      }
    }
    if idx <= limit {
      buffer[idx] := 0;
    }
  }

  /** What the loop has kept after reading up to `i` is a prefix of what it keeps from the whole range. */
  lemma AsciiFilterPrefix(src: seq<uint8>, from: nat, i: nat, to: nat)
    requires from <= i <= to <= |src|
    ensures |AsciiFilter(src[from..i])| <= |AsciiFilter(src[from..to])|
    ensures AsciiFilter(src[from..i]) == AsciiFilter(src[from..to])[..|AsciiFilter(src[from..i])|]
  {
    assert src[from..i] + src[i..to] == src[from..to];
    AsciiFilterAppend(src[from..i], src[i..to]);
  }

  /** For a buffer of exactly `length` bytes, the stores as written stay inside it iff fewer than `length` bytes are kept. */
  lemma OutputFitsExactBuffer(kept: nat, length: int)
    requires 0 <= length
    ensures OutputFits(length, kept, length) <==> kept < length
  {
  }

  /*
   * The copy bounded by `length`, as the V8 API describes `WriteAscii`:
   * at most `length` bytes are stored (any number for -1), and the
   * terminator only when there is room for it.
   */

  /** The bytes the bounded copy stores: all kept bytes for -1, otherwise at most `length` of them. */
  function BoundedKept(kept: seq<uint8>, length: int): (r: seq<uint8>)
    ensures length == -1 ==> r == kept
    ensures length != -1 ==> |r| == if |kept| <= length then |kept| else if length <= 0 then 0 else length
    ensures r == kept[..|r|]
  {
    if length == -1 || |kept| <= length then kept
    else if length <= 0 then []
    else kept[..length]
  }

  /** `length == -1 || idx < length`: there is room for the terminator. */
  predicate RoomForTerminator(count: nat, length: int) {
    length == -1 || count < length
  }

  /** The buffer has `length` bytes, or for -1 room for every kept byte and the terminator. */
  predicate BoundedFits(bufferLength: nat, kept: seq<uint8>, length: int) {
    if length == -1 then |kept| < bufferLength else length <= bufferLength
  }

  /** The buffer after the bounded copy: the stored bytes, then a NUL when there is room. */
  function BoundedOutput(before: seq<uint8>, kept: seq<uint8>, length: int): (after: seq<uint8>)
    requires BoundedFits(|before|, kept, length)
    ensures |after| == |before|
    ensures forall k :: 0 <= k < |before| ==>
              after[k] == if k < |BoundedKept(kept, length)| then BoundedKept(kept, length)[k]
                          else if k == |BoundedKept(kept, length)| && RoomForTerminator(|BoundedKept(kept, length)|, length) then 0
                          else before[k]
  {
    var stored := BoundedKept(kept, length);
    var copied := Overwrite(before, 0, stored);
    if RoomForTerminator(|stored|, length) then copied[|stored| := 0] else copied
  }

  /** A buffer of `length` bytes always holds the bounded copy's stores. */
  lemma BoundedFitsExactBuffer(kept: seq<uint8>, length: int)
    requires 0 <= length
    ensures BoundedFits(length, kept, length)
    ensures |BoundedKept(kept, length)| + (if RoomForTerminator(|BoundedKept(kept, length)|, length) then 1 else 0) <= length
  {
  }

  /** When fewer than `length` bytes are kept, the bounded copy stores exactly what the code as written stores. */
  lemma BoundedAgreesWhenRoom(before: seq<uint8>, kept: seq<uint8>, length: int)
    requires |kept| < length <= |before|
    ensures BoundedOutput(before, kept, length) == AsciiOutput(before, kept, length)
  {
  }

  /** When the bounded loop stops, it has kept exactly the bytes `BoundedKept` names. */
  lemma BoundedLoopExit(src: seq<uint8>, from: nat, i: nat, to: nat, length: int)
    requires from <= i <= to <= |src|
    requires length != -1 ==> |AsciiFilter(src[from..i])| == 0 || |AsciiFilter(src[from..i])| <= length
    requires i == to || (length != -1 && |AsciiFilter(src[from..i])| >= length)
    ensures AsciiFilter(src[from..i]) == BoundedKept(AsciiFilter(src[from..to]), length)
  {
    AsciiFilterPrefix(src, from, i, to);
  }

  /**
   * The copy loop bounded by `length`: the first ASCII bytes of
   * `tmp[from .. to)`, at most `length` of them, go to `buffer[0 .. idx)`
   * in order, and a NUL to `buffer[idx]` when there is room.
   */
  method CopyAsciiBounded(buffer: array<uint8>, tmp: array<uint8>, from: int, to: int, length: int) returns (idx: int)
    requires buffer != tmp
    requires 0 <= from && (from < to ==> to <= tmp.Length)
    requires BoundedFits(buffer.Length, AsciiFilter(Slice(tmp[..], from, to)), length)
    modifies buffer
    ensures idx == |BoundedKept(AsciiFilter(Slice(tmp[..], from, to)), length)|
    ensures buffer[..] == BoundedOutput(old(buffer[..]), AsciiFilter(Slice(tmp[..], from, to)), length)
  {
    ghost var src := tmp[..];
    ghost var kept := AsciiFilter(Slice(src, from, to));
    idx := 0;
    if from < to {
      var i := from;
      assert src[from..i] == [];
      while i < to && (length == -1 || idx < length)
        invariant from <= i <= to && tmp[..] == src
        invariant idx == |AsciiFilter(src[from..i])| <= |kept|
        invariant length != -1 ==> idx == 0 || idx <= length
        invariant buffer[..] == Overwrite(old(buffer[..]), 0, AsciiFilter(src[from..i]))
        modifies buffer
      {
        ghost var done := AsciiFilter(src[from..i]);
        AsciiFilterStep(src, from, i, to);
        if tmp[i] <= 0x7F {
          OverwriteSnoc(old(buffer[..]), done, tmp[i]);
          buffer[idx] := tmp[i];
          idx := idx + 1;
        }
        i := i + 1;
      }
      BoundedLoopExit(src, from, i, to, length);
    }
    if length == -1 || idx < length {
      buffer[idx] := 0;
    }
  }

  /** The encoding fits the `tmp` buffer, whose length `encodedLength` is passed to `WriteUtf8` as an `int`. */
  predicate EncodingFits(s: JsString, enc: EncoderOutput) {
    s.encodedLength < TWO_31 && |enc.bytes| <= s.encodedLength
  }

  /** `tmp` after `WriteUtf8(tmp, encodedLength)`; the fresh array starts out zero-filled here. */
  function EncodedTmp(s: JsString, enc: EncoderOutput, ws: WordSize): (tmp: seq<uint8>)
    requires EncodingFits(s, enc)
    ensures |tmp| == s.encodedLength
  {
    Utf8Written(Repeat(0, s.encodedLength), Int32Of(s.encodedLength), enc, ws)
  }

  /** `written` in `WriteAscii`. */
  function Written(s: JsString, enc: EncoderOutput, ws: WordSize): (r: int)
    ensures IsInt(r)
  {
    Utf8Result(Int32Of(s.encodedLength), enc, ws)
  }

  /** `tmp = new char[encodedLength]` and `written = WriteUtf8(tmp, encodedLength)`; the fresh array is zero-filled here. */
  method EncodeToTmp(s: JsString, enc: EncoderOutput, ws: WordSize) returns (tmp: array<uint8>, written: int)
    requires EncodingFits(s, enc)
    ensures fresh(tmp)
    ensures tmp[..] == EncodedTmp(s, enc, ws) && written == Written(s, enc, ws)
  {
    tmp := new uint8[s.encodedLength](_ => 0);
    assert tmp[..] == Repeat(0, s.encodedLength);
    written := WriteUtf8(tmp, Int32Of(s.encodedLength), enc, null, s.length, ws);
  }

  /** The copy loop as written reads `tmp[start .. start + written)` only inside `tmp`. */
  predicate AsciiReadInBounds(start: int, s: JsString, enc: EncoderOutput, ws: WordSize) {
    0 <= start && (0 < Written(s, enc, ws) ==> start + Written(s, enc, ws) <= s.encodedLength)
  }

  /** The bytes the copy loop keeps when it reads `tmp[from .. to)`. */
  function AsciiKept(from: int, to: int, s: JsString, enc: EncoderOutput, ws: WordSize): (kept: seq<uint8>)
    requires EncodingFits(s, enc)
    requires 0 <= from && (from < to ==> to <= s.encodedLength)
  {
    AsciiFilter(Slice(EncodedTmp(s, enc, ws), from, to))
  }

  /** `length == -1` means "up to `written`". */
  function Limit(length: int, written: int): int {
    if length == -1 then written else length
  }

  /**
   * `WriteAscii(buffer, start, length)` as written: the loop runs from
   * `start` to `start + written`.
   */
  method WriteAscii(buffer: array<uint8>, start: int, length: int, s: JsString, enc: EncoderOutput, ws: WordSize)
    returns (idx: int)
    requires EncodingFits(s, enc)
    requires AsciiReadInBounds(start, s, enc, ws)
    requires OutputFits(buffer.Length, |AsciiKept(start, start + Written(s, enc, ws), s, enc, ws)|,
                        Limit(length, Written(s, enc, ws)))
    modifies buffer
    ensures idx == |AsciiKept(start, start + Written(s, enc, ws), s, enc, ws)|
    ensures buffer[..] == AsciiOutput(old(buffer[..]), AsciiKept(start, start + Written(s, enc, ws), s, enc, ws),
                                      Limit(length, Written(s, enc, ws)))
  {
    var tmp, written := EncodeToTmp(s, enc, ws);
    var end := start + written;
    var limit := if length == -1 then written else length;
    idx := CopyAscii(buffer, tmp, start, end, limit);
  }

  /** The corrected loop reads `tmp[start .. written)`: only the bytes `WriteUtf8` reported. */
  predicate CorrectedReadInBounds(s: JsString, enc: EncoderOutput, ws: WordSize) {
    Written(s, enc, ws) <= s.encodedLength
  }

  /**
   * `WriteAscii` corrected: the loop reads `tmp[start .. written)`, stores
   * at most `length` bytes (any number for -1), and stores the terminator
   * only when there is room for it.
   */
  method WriteAsciiCorrected(buffer: array<uint8>, start: int, length: int, s: JsString, enc: EncoderOutput, ws: WordSize)
    returns (idx: int)
    requires EncodingFits(s, enc)
    requires 0 <= start && CorrectedReadInBounds(s, enc, ws)
    requires BoundedFits(buffer.Length, AsciiKept(start, Written(s, enc, ws), s, enc, ws), length)
    modifies buffer
    ensures idx == |BoundedKept(AsciiKept(start, Written(s, enc, ws), s, enc, ws), length)|
    ensures buffer[..] == BoundedOutput(old(buffer[..]), AsciiKept(start, Written(s, enc, ws), s, enc, ws), length)
  {
    var tmp, written := EncodeToTmp(s, enc, ws);
    idx := CopyAsciiBounded(buffer, tmp, start, written, length);
  }

  /**
   * For a complete, non-empty encoding the loop as written stays inside
   * `tmp` only when `start` is 0, while the corrected loop always does.
   */
  lemma FullEncodingReads(start: int, s: JsString, enc: EncoderOutput, ws: WordSize)
    requires EncodingFits(s, enc) && FullEncoding(s.encodedLength, enc)
    requires 0 < s.encodedLength && 0 <= start
    ensures AsciiReadInBounds(start, s, enc, ws) <==> start == 0
    ensures CorrectedReadInBounds(s, enc, ws)
  {
    assert Written(s, enc, ws) == s.encodedLength;
  }

  /** "abc" (3 bytes) with `start == 1`: the loop as written reads `tmp[3]`, one past the end. */
  lemma WriteAsciiReadsPastEnd()
    ensures !AsciiReadInBounds(1, JsString(3, 3), EncoderOutput([97, 98, 99], 3), W64)
  {
    assert Written(JsString(3, 3), EncoderOutput([97, 98, 99], 3), W64) == 3;
  }

  /**
   * "abcd" into a 4-byte buffer with `length == 4`: all 4 bytes are kept
   * and the code as written stores its terminator at `buffer[4]`.
   */
  lemma WriteAsciiTerminatorOverrun()
    ensures var s, enc := JsString(4, 4), EncoderOutput([97, 98, 99, 100], 4);
            && |AsciiKept(0, Written(s, enc, W64), s, enc, W64)| == 4
            && !OutputFits(4, 4, Limit(4, Written(s, enc, W64)))
  {
    var s, enc := JsString(4, 4), EncoderOutput([97, 98, 99, 100], 4);
    assert Written(s, enc, W64) == 4;
    assert EncodedTmp(s, enc, W64) == [97, 98, 99, 100];
    AsciiFilterIdentity([97, 98, 99, 100]);
  }

  /** For a complete encoding the corrected loop keeps the ASCII bytes of the encoding from `start` on. */
  lemma CorrectedKeepsAsciiSuffix(start: int, s: JsString, enc: EncoderOutput, ws: WordSize)
    requires EncodingFits(s, enc) && FullEncoding(s.encodedLength, enc)
    requires 0 <= start <= s.encodedLength
    ensures AsciiKept(start, Written(s, enc, ws), s, enc, ws) == AsciiFilter(enc.bytes[start..])
  {
    var tmp := EncodedTmp(s, enc, ws);
    assert Written(s, enc, ws) == s.encodedLength;
    assert tmp == enc.bytes;
    assert Slice(tmp, start, s.encodedLength) == enc.bytes[start..];
  }

  /*
   * String::Write
   */

  /** The outcome of `Write` as written: its result, or a read of code units outside the string. */
  datatype WriteOutcome = Returned(value: int) | ReadsOutsideString(offset: int, units: nat)

  function Min(a: nat, b: nat): nat {
    if a <= b then a else b
  }

  /** `min<size_t>(length, internalLen - start)`, or `internalLen - start` for a `length` of -1, in `size_t`. */
  function UnitsRequested(internalLen: nat, start: int, length: int, ws: WordSize): (n: nat)
    ensures n < SizeModulus(ws)
    ensures 0 <= length < SizeModulus(ws) ==> n <= length
    ensures 0 <= start <= internalLen < SizeModulus(ws) ==>
              n == if length == -1 then internalLen - start else Min(ToSize(length, ws), internalLen - start)
  {
    var remaining := ToSize(internalLen - ToSize(start, ws), ws);
    if length == -1 then remaining else Min(ToSize(length, ws), remaining)
  }

  /**
   * `Write(buffer, start, length)` as written.  The guard returns 0
   * whenever `start <= internalLen`, so every path that reaches `memcpy`
   * with a non-zero size reads from outside the string.
   */
  function WriteAsWritten(chars: Option<seq<uint16>>, start: int, length: int, ws: WordSize): (out: WriteOutcome)
    requires IsInt(start) && IsInt(length)
    requires chars.Some? ==> |chars.value| < SizeModulus(ws)
    ensures out == Returned(0) || out.ReadsOutsideString?
    ensures out.ReadsOutsideString? ==> chars.Some? && out.offset == start && out.units > 0
    ensures out.ReadsOutsideString? ==> start < 0 || start > |chars.value|
  {
    if chars.None? || |chars.value| >= ToSize(start, ws) then Returned(0)
    else
      var bytes := ToSize(UnitsRequested(|chars.value|, start, length, ws) * 2, ws);
      if bytes == 0 then Returned(0) else ReadsOutsideString(start, bytes / 2)
  }

  /** The number of code units the corrected `Write` copies. */
  function CopiedUnits(chars: seq<uint16>, start: int, length: int, ws: WordSize): (n: nat)
    requires |chars| < TWO_31
    ensures n <= |chars|
    ensures n > 0 ==> ToSize(start, ws) + n <= |chars|
  {
    if |chars| < ToSize(start, ws) then 0 else UnitsRequested(|chars|, start, length, ws)
  }

  /**
   * The corrected `Write` copies `min(length, Length() - start)` units
   * starting at `start`, all remaining ones for -1, and none when `start`
   * is past the end.
   */
  lemma CopiedUnitsMeaning(chars: seq<uint16>, start: int, length: int, ws: WordSize)
    requires |chars| < TWO_31 && 0 <= start < TWO_31
    requires length == -1 || 0 <= length < TWO_31
    ensures start <= |chars| && length == -1 ==> CopiedUnits(chars, start, length, ws) == |chars| - start
    ensures start <= |chars| && length != -1 ==> CopiedUnits(chars, start, length, ws) == Min(length, |chars| - start)
    ensures start > |chars| ==> CopiedUnits(chars, start, length, ws) == 0
  {
  }

  /** "abc" from -1 with length 2: the code as written copies `chars[-1]` and `chars[0]`. */
  lemma WriteNegativeStartReadsIntoString()
    ensures WriteAsWritten(Some([97, 98, 99]), -1, 2, W64) == ReadsOutsideString(-1, 2)
  {
  }

  /** "abc" from 0 with length -1: the code as written returns 0 where all 3 units were meant to be copied. */
  lemma WriteDropsWholeString()
    ensures WriteAsWritten(Some([97, 98, 99]), 0, -1, W64) == Returned(0)
    ensures CopiedUnits([97, 98, 99], 0, -1, W64) == 3
  {
  }

  /** `Write(buffer, start, length)` with the guard corrected to `internalLen < start`. */
  method Write(buffer: array<uint16>, chars: Option<seq<uint16>>, start: int, length: int, ws: WordSize)
    returns (r: int)
    requires IsInt(start) && IsInt(length)
    requires chars.Some? ==> |chars.value| < TWO_31 && CopiedUnits(chars.value, start, length, ws) <= buffer.Length
    modifies buffer
    ensures chars.None? ==> r == 0 && buffer[..] == old(buffer[..])
    ensures chars.Some? ==> r == CopiedUnits(chars.value, start, length, ws)
    ensures chars.Some? && r > 0 ==>
              buffer[..] == Overwrite(old(buffer[..]), 0, chars.value[ToSize(start, ws)..ToSize(start, ws) + r])
    ensures chars.Some? && r == 0 ==> buffer[..] == old(buffer[..])
  {
    if chars.None? || |chars.value| < ToSize(start, ws) {
      return 0;
    }
    var internalLen := |chars.value|;
    var s := ToSize(start, ws);
    var bytes := ToSize(Min(ToSize(length, ws), ToSize(internalLen - s, ws)) * 2, ws);
    if length == -1 {
      bytes := ToSize((internalLen - s) * 2, ws);
    }
    var n := bytes / 2;
    assert n == CopiedUnits(chars.value, start, length, ws);
    forall k | 0 <= k < n {  // memcpy(buffer, &chars[start], bytes)
      buffer[k] := chars.value[s + k];
    }
    if n > 0 {
      assert buffer[..] == Overwrite(old(buffer[..]), 0, chars.value[s..s + n]);
    } else {
      assert buffer[..] == old(buffer[..]);
    }
    r := Int32Of(n);
  }

  /*
   * String::AsciiValue and String::Utf8Value
   */

  /** What the engine must guarantee for `AsciiValue`: the ASCII bytes kept fit the `Length() + 1` buffer. */
  predicate AsciiValueFits(s: JsString, enc: EncoderOutput, ws: WordSize) {
    && s.length + 1 < TWO_31
    && EncodingFits(s, enc)
    && AsciiReadInBounds(0, s, enc, ws)
    && |AsciiKept(0, Written(s, enc, ws), s, enc, ws)| <= s.length
  }

  class AsciiValue {
    /** `mStr`; null is NULL. */
    var mStr: array?<uint8>
    var mLength: int

    /**
     * `AsciiValue(val)`; `str` is `val->ToString()` (`None` when it is
     * empty).  An empty handle or string leaves NULL and 0.
     */
    constructor (val: Handle, str: Option<JsString>, enc: EncoderOutput, ws: WordSize)
      requires str.Some? ==> AsciiValueFits(str.value, enc, ws)
      ensures val.IsEmpty() || str.None? ==> mStr == null && mLength == 0
      ensures !val.IsEmpty() && str.Some? ==>
                && mStr != null && fresh(mStr) && mStr.Length == str.value.length + 1
                && mLength == |AsciiKept(0, Written(str.value, enc, ws), str.value, enc, ws)|
                && mStr[..] == AsciiOutput(Repeat(0, str.value.length + 1),
                                           AsciiKept(0, Written(str.value, enc, ws), str.value, enc, ws),
                                           str.value.length + 1)
    {
      var buffer: array?<uint8> := null;
      var length := 0;
      if !val.IsEmpty() && str.Some? {
        var len := Int32Of(str.value.length);
        var b := new uint8[len + 1](_ => 0);
        assert b[..] == Repeat(0, len + 1);
        length := WriteAscii(b, 0, len + 1, str.value, enc, ws);
        buffer := b;
      }
      mStr := buffer;
      mLength := length;
    }
  }

  /** `AsciiValue` of a string holds its ASCII bytes followed by a terminator. */
  lemma AsciiValueTerminated(s: JsString, enc: EncoderOutput, ws: WordSize)
    requires AsciiValueFits(s, enc, ws)
    ensures var kept := AsciiKept(0, Written(s, enc, ws), s, enc, ws);
            var out := AsciiOutput(Repeat(0, s.length + 1), kept, s.length + 1);
            out[..|kept|] == kept && out[|kept|] == 0
  {
  }

  /** What `Utf8Value` needs: `Utf8Length() + 1` is an `int` and the encoder stays inside the buffer. */
  predicate Utf8ValueFits(s: JsString, enc: EncoderOutput) {
    s.encodedLength + 1 < TWO_31 && |enc.bytes| <= s.encodedLength + 1
  }

  class Utf8Value {
    /** `mStr`; null is NULL. */
    var mStr: array?<uint8>
    var mLength: int

    /**
     * `Utf8Value(val)`; `str` is `val->ToString()` (`None` when it is
     * empty).  The buffer has `Utf8Length() + 1` bytes and `mLength` is
     * `WriteUtf8`'s result minus one.
     */
    constructor (val: Handle, str: Option<JsString>, enc: EncoderOutput, ws: WordSize)
      requires str.Some? ==> Utf8ValueFits(str.value, enc)
      ensures val.IsEmpty() || str.None? ==> mStr == null && mLength == 0
      ensures !val.IsEmpty() && str.Some? ==>
                && mStr != null && fresh(mStr) && mStr.Length == str.value.encodedLength + 1
                && mStr[..] == Utf8Written(Repeat(0, str.value.encodedLength + 1), str.value.encodedLength + 1, enc, ws)
                && mLength == Utf8Result(str.value.encodedLength + 1, enc, ws) - 1
    {
      var buffer: array?<uint8> := null;
      var length := 0;
      if !val.IsEmpty() && str.Some? {
        var len := Int32Of(str.value.encodedLength);
        var b := new uint8[len + 1](_ => 0);
        assert b[..] == Repeat(0, len + 1);
        var written := WriteUtf8(b, len + 1, enc, null, str.value.length, ws);
        length := written - 1;
        buffer := b;
      }
      mStr := buffer;
      mLength := length;
    }
  }

  /**
   * When the encoder writes the whole encoding, `Utf8Value` holds exactly
   * those bytes and a terminator, and `mLength` is `Utf8Length()`.
   */
  lemma Utf8ValueComplete(s: JsString, enc: EncoderOutput, ws: WordSize)
    requires Utf8ValueFits(s, enc) && FullEncoding(s.encodedLength, enc)
    ensures Utf8Result(s.encodedLength + 1, enc, ws) - 1 == s.encodedLength
    ensures Utf8Written(Repeat(0, s.encodedLength + 1), s.encodedLength + 1, enc, ws) == enc.bytes + [0]
  {
    var out := Utf8Written(Repeat(0, s.encodedLength + 1), s.encodedLength + 1, enc, ws);
    assert forall k :: 0 <= k < |out| ==> out[k] == (enc.bytes + [0])[k];
  }
}
