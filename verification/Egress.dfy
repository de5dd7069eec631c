/** Reading and truncating bodies in crates/nagent-agents/src/egress.rs: the budgeted chunk loop and
  the truncation of error bodies. */
module Egress {
  import opened Wrappers

  type Byte = b: nat | b < 256

  // ---------------------------------------------------------------- reading a body

  /** One item of the byte stream: a chunk, or a transport error. */
  datatype Item = Chunk(bytes: seq<Byte>) | Failure(message: string)

  datatype BodyResult = Body(bytes: seq<Byte>) | ResponseExceeded(budget: nat) | Transport(message: string)

  /** The clamped budget: the caller's or the configured limit, whichever is lower, at least 1024. */
  function Budget(maxBytes: Option<nat>, configured: nat): (b: nat)
    ensures b >= 1024 && (configured >= 1024 ==> b <= configured)
    ensures maxBytes.Some? && maxBytes.value >= 1024 ==> b <= maxBytes.value
    ensures b == 1024 || b == configured || maxBytes == Some(b)
    ensures var limit := if maxBytes.Some? && maxBytes.value < configured then maxBytes.value else configured;
            if limit >= 1024 then b == limit else b == 1024
  {
    var asked := if maxBytes.Some? then maxBytes.value else configured;
    var capped := if asked < configured then asked else configured;
    if capped < 1024 then 1024 else capped
  }

  /** The bytes before the first transport error. */
  function Received(items: seq<Item>): seq<Byte> {
    if items == [] || items[0].Failure? then [] else items[0].bytes + Received(items[1..])
  }

  function FirstFailure(items: seq<Item>): Option<string> {
    if items == [] then None
    else if items[0].Failure? then Some(items[0].message)
    else FirstFailure(items[1..])
  }

  /** The outcome as a function of the bytes alone: too many bytes before any error win over the
      error. */
  function ReadResult(items: seq<Item>, budget: nat): BodyResult {
    if |Received(items)| > budget then ResponseExceeded(budget)
    else
      match FirstFailure(items)
      case Some(message) => Transport(message)
      case None => Body(Received(items))
  }

  method ReadBody(items: seq<Item>, budget: nat) returns (r: BodyResult)
    ensures r == ReadResult(items, budget)
  {
    var buf: seq<Byte> := [];
    for i := 0 to |items|
      invariant |buf| <= budget && Received(items) == buf + Received(items[i..])
      invariant FirstFailure(items) == FirstFailure(items[i..])
    {
      assert items[i..][0] == items[i] && items[i..][1..] == items[i + 1..];
      match items[i]
      case Failure(message) => return Transport(message);
      case Chunk(bytes) =>
        assert Received(items[i..]) == bytes + Received(items[i + 1..]);
        if |buf| + |bytes| > budget {
          return ResponseExceeded(budget);
        }
        buf := buf + bytes;
    }
    r := Body(buf);
  }

  /** The chunks of an error-free stream */
  function Chunks(parts: seq<seq<Byte>>): seq<Item> {
    if parts == [] then [] else [Chunk(parts[0])] + Chunks(parts[1..])
  }

  function Concat(parts: seq<seq<Byte>>): seq<Byte> {
    if parts == [] then [] else parts[0] + Concat(parts[1..])
  }

  lemma {:induction false} ChunksDeliver(parts: seq<seq<Byte>>)
    ensures Received(Chunks(parts)) == Concat(parts) && FirstFailure(Chunks(parts)) == None
    decreases |parts|
  {
    if parts != [] {
      ChunksDeliver(parts[1..]);
      assert Chunks(parts)[1..] == Chunks(parts[1..]);
    }
  }

  /** Two chunkings of one body read alike; reading succeeds, with exactly the body, if and only if
      the body fits the budget. */
  lemma ChunkingIrrelevant(a: seq<seq<Byte>>, b: seq<seq<Byte>>, budget: nat)
    requires Concat(a) == Concat(b)
    ensures ReadResult(Chunks(a), budget) == ReadResult(Chunks(b), budget)
            == if |Concat(a)| <= budget then Body(Concat(a)) else ResponseExceeded(budget)
  {
    ChunksDeliver(a);
    ChunksDeliver(b);
  }

  lemma {:induction false} BeforeFailure(parts: seq<seq<Byte>>, message: string, rest: seq<Item>)
    ensures Received(Chunks(parts) + [Failure(message)] + rest) == Concat(parts)
    ensures FirstFailure(Chunks(parts) + [Failure(message)] + rest) == Some(message)
    decreases |parts|
  {
    var items := Chunks(parts) + [Failure(message)] + rest;
    if parts == [] {
      assert items[0] == Failure(message);
    } else {
      BeforeFailure(parts[1..], message, rest);
      assert items[0] == Chunk(parts[0]);
      assert items[1..] == Chunks(parts[1..]) + [Failure(message)] + rest;
    }
  }

  /** A stream that breaks reports its error, unless what came before was too much already; what
      comes after the error never matters. */
  lemma FailureIsReported(parts: seq<seq<Byte>>, message: string, rest: seq<Item>, budget: nat)
    ensures ReadResult(Chunks(parts) + [Failure(message)] + rest, budget)
            == if |Concat(parts)| > budget then ResponseExceeded(budget) else Transport(message)
  {
    BeforeFailure(parts, message, rest);
  }

  // ---------------------------------------------------------------- truncating at a character

  /** A continuation byte `10xxxxxx` */
  predicate Continues(b: Byte) { 0x80 <= b < 0xC0 }

  /** One encoded character: a lead byte and up to three continuation bytes. */
  predicate IsEncoded(bytes: seq<Byte>) {
    && 1 <= |bytes| <= 4
    && !Continues(bytes[0])
    && forall i :: 1 <= i < |bytes| ==> Continues(bytes[i])
  }

  type Encoded = bytes: seq<Byte> | IsEncoded(bytes) witness [0]

  /** A Unicode scalar value, and its encoding (section 3 of RFC 3629) */
  predicate IsScalar(c: nat) { c < 0xD800 || 0xE000 <= c < 0x11_0000 }

  function Encode(c: nat): (bytes: seq<Byte>)
    requires IsScalar(c)
    ensures IsEncoded(bytes)
  {
    if c < 0x80 then [c]
    else if c < 0x800 then [0xC0 + c / 0x40, 0x80 + c % 0x40]
    else if c < 0x1_0000 then [0xE0 + c / 0x1000, 0x80 + c / 0x40 % 0x40, 0x80 + c % 0x40]
    else [0xF0 + c / 0x4_0000, 0x80 + c / 0x1000 % 0x40, 0x80 + c / 0x40 % 0x40, 0x80 + c % 0x40]
  }

  function Payload(b: int, tag: int): int { b - tag }

  /** The scalar value a character encodes. */
  function Decode(bytes: Encoded): int {
    if |bytes| == 1 then bytes[0]
    else if |bytes| == 2 then Payload(bytes[0], 0xC0) * 0x40 + Payload(bytes[1], 0x80)
    else if |bytes| == 3 then
      (Payload(bytes[0], 0xE0) * 0x40 + Payload(bytes[1], 0x80)) * 0x40 + Payload(bytes[2], 0x80)
    else
      ((Payload(bytes[0], 0xF0) * 0x40 + Payload(bytes[1], 0x80)) * 0x40 + Payload(bytes[2], 0x80)) * 0x40
      + Payload(bytes[3], 0x80)
  }

  /** The groups of six bits of a number. */
  lemma SixBits(c: nat)
    ensures c == c / 0x40 * 0x40 + c % 0x40
    ensures c / 0x1000 == c / 0x40 / 0x40 && c / 0x4_0000 == c / 0x1000 / 0x40
  {
  }

  /** Nothing of a character is lost, and it takes no more bytes than it needs. */
  lemma EncodeRoundTrip(c: nat)
    requires IsScalar(c)
    ensures Decode(Encode(c)) == c
    ensures |Encode(c)| == if c < 0x80 then 1 else if c < 0x800 then 2 else if c < 0x1_0000 then 3 else 4
  {
    SixBits(c);
    SixBits(c / 0x40);
    SixBits(c / 0x1000);
  }

  /** The text made of these characters */
  function Utf8(cs: seq<Encoded>): seq<Byte> {
    if cs == [] then [] else cs[0] + Utf8(cs[1..])
  }

  /** `is_char_boundary` */
  predicate IsBoundary(s: seq<Byte>, i: nat)
    requires i <= |s|
  {
    i == 0 || i == |s| || !Continues(s[i])
  }

  /** A line break, an ellipsis and `[truncated]` */
  const MARKER: seq<Byte> :=
    [0x0A, 0xE2, 0x80, 0xA6, 0x5B, 0x74, 0x72, 0x75, 0x6E, 0x63, 0x61, 0x74, 0x65, 0x64, 0x5D]

  /** `end` is the last boundary at or below the cap. */
  predicate LastBoundary(s: seq<Byte>, cap: nat, end: nat)
    requires cap <= |s|
  {
    end <= cap && IsBoundary(s, end) && forall i: nat :: end < i <= cap ==> !IsBoundary(s, i)
  }

  method TruncateBody(s: seq<Byte>, maxBytes: nat) returns (out: seq<Byte>)
    ensures |s| <= maxBytes ==> out == s
    ensures |s| > maxBytes ==> exists end: nat :: LastBoundary(s, maxBytes, end) && out == s[..end] + MARKER
  {
    if |s| <= maxBytes {
      return s;
    }
    var end: nat := maxBytes;
    while end > 0 && !IsBoundary(s, end)
      invariant end <= maxBytes
      invariant forall i: nat :: end < i <= maxBytes ==> !IsBoundary(s, i)
    {
      end := end - 1;
    }
    assert LastBoundary(s, maxBytes, end);
    out := s[..end] + MARKER;
  }

  lemma {:induction false} Utf8Append(a: seq<Encoded>, b: seq<Encoded>)
    ensures Utf8(a + b) == Utf8(a) + Utf8(b)
    decreases |a|
  {
    if a == [] {
      assert a + b == b;
    } else {
      assert (a + b)[0] == a[0] && (a + b)[1..] == a[1..] + b;
      Utf8Append(a[1..], b);
    }
  }

  /** The byte offset of character `k` */
  function Offset(cs: seq<Encoded>, k: nat): nat
    requires k <= |cs|
  {
    |Utf8(cs[..k])|
  }

  lemma OffsetStep(cs: seq<Encoded>, k: nat)
    requires k < |cs|
    ensures Offset(cs, k + 1) == Offset(cs, k) + |cs[k]|
  {
    assert cs[..k + 1] == cs[..k] + [cs[k]];
    Utf8Append(cs[..k], [cs[k]]);
    assert Utf8([cs[k]]) == cs[k] + Utf8([]);
  }

  /** Character `k` occupies the bytes from its offset on. */
  lemma CharacterAt(cs: seq<Encoded>, k: nat)
    requires k < |cs|
    ensures Offset(cs, k) + |cs[k]| <= |Utf8(cs)|
    ensures Utf8(cs)[Offset(cs, k)..Offset(cs, k) + |cs[k]|] == cs[k]
  {
    assert cs == cs[..k] + cs[k..];
    Utf8Append(cs[..k], cs[k..]);
    assert Utf8(cs[k..]) == cs[k] + Utf8(cs[k..][1..]);
  }

  /** Every byte lies in some character. */
  lemma {:induction false} Locate(cs: seq<Encoded>, i: nat, n: nat) returns (k: nat)
    requires n <= |cs| && i < Offset(cs, n)
    ensures k < n && Offset(cs, k) <= i < Offset(cs, k) + |cs[k]|
    decreases n
  {
    assert cs[..0] == [];
    OffsetStep(cs, n - 1);
    if i >= Offset(cs, n - 1) {
      k := n - 1;
    } else {
      k := Locate(cs, i, n - 1);
    }
  }

  lemma {:induction false} OffsetsAscend(cs: seq<Encoded>, j: nat, k: nat)
    requires j < k <= |cs|
    ensures Offset(cs, j) < Offset(cs, k)
    decreases k
  {
    OffsetStep(cs, k - 1);
    if j < k - 1 {
      OffsetsAscend(cs, j, k - 1);
    }
  }

  /** An offset inside character `k` is its start. */
  lemma Between(cs: seq<Encoded>, k: nat, m: nat)
    requires k < |cs| && m <= |cs| && Offset(cs, k) <= Offset(cs, m) < Offset(cs, k) + |cs[k]|
    ensures m == k
  {
    OffsetStep(cs, k);
    if m < k {
      OffsetsAscend(cs, m, k);
    } else if m > k + 1 {
      OffsetsAscend(cs, k + 1, m);
    }
  }

  /** The boundaries of valid UTF-8 are exactly the offsets of its characters and its end. */
  lemma BoundaryExactly(cs: seq<Encoded>, i: nat)
    requires i <= |Utf8(cs)|
    ensures IsBoundary(Utf8(cs), i) <==> exists k :: 0 <= k <= |cs| && Offset(cs, k) == i
  {
    assert cs[..|cs|] == cs && cs[..0] == [];
    assert Offset(cs, |cs|) == |Utf8(cs)| && Offset(cs, 0) == 0;
    if i < |Utf8(cs)| {
      var k := Locate(cs, i, |cs|);
      CharacterAt(cs, k);
      assert Utf8(cs)[i] == cs[k][i - Offset(cs, k)];
      if m :| 0 <= m <= |cs| && Offset(cs, m) == i {
        Between(cs, k, m);
      }
    }
  }

  /** On valid UTF-8 the last boundary at or below the cap ends the longest whole-character prefix
      that fits, and is at most three bytes below the cap. */
  lemma LongestPrefix(cs: seq<Encoded>, cap: nat, end: nat) returns (k: nat)
    requires cap < |Utf8(cs)| && LastBoundary(Utf8(cs), cap, end)
    ensures k < |cs| && Utf8(cs)[..end] == Utf8(cs[..k])
    ensures Offset(cs, k) <= cap < Offset(cs, k + 1)
    ensures cap - end <= 3
  {
    BoundaryExactly(cs, end);
    assert cs[..|cs|] == cs;
    k :| 0 <= k <= |cs| && Offset(cs, k) == end;
    assert cs == cs[..k] + cs[k..];
    Utf8Append(cs[..k], cs[k..]);
    OffsetStep(cs, k);
    CharacterAt(cs, k);
    BoundaryExactly(cs, Offset(cs, k + 1));
  }

  /** A Rust `str`, as scalar values and as bytes. */
  type Scalar = c: nat | IsScalar(c) witness 0

  function Encodings(text: seq<Scalar>): (cs: seq<Encoded>)
    ensures |cs| == |text|
  {
    if text == [] then [] else [Encode(text[0])] + Encodings(text[1..])
  }

  function Bytes(text: seq<Scalar>): seq<Byte> { Utf8(Encodings(text)) }

  lemma {:induction false} EncodingsPrefix(text: seq<Scalar>, k: nat)
    requires k <= |text|
    ensures Encodings(text[..k]) == Encodings(text)[..k]
    decreases |text|
  {
    if k > 0 {
      EncodingsPrefix(text[1..], k - 1);
      assert text[..k][0] == text[0] && text[..k][1..] == text[1..][..k - 1];
    }
  }

  /** Truncation of any text that is too long: what is kept before the marker is the encoding of the
      longest prefix of characters that fits, found in at most three steps back. */
  lemma TruncationKeepsCharacters(text: seq<Scalar>, cap: nat, end: nat) returns (k: nat)
    requires cap < |Bytes(text)| && LastBoundary(Bytes(text), cap, end)
    ensures k < |text| && Bytes(text)[..end] == Bytes(text[..k])
    ensures |Bytes(text[..k])| <= cap < |Bytes(text[..k + 1])|
    ensures cap - end <= 3
  {
    k := LongestPrefix(Encodings(text), cap, end);
    EncodingsPrefix(text, k);
    EncodingsPrefix(text, k + 1);
  }

  function Ascii(s: string): (text: seq<Scalar>)
    requires forall i :: 0 <= i < |s| ==> s[i] < 128 as char
  {
    seq(|s|, i requires 0 <= i < |s| => s[i] as Scalar)
  }

  lemma {:induction false} AsciiBytes(text: seq<Scalar>)
    requires forall i :: 0 <= i < |text| ==> text[i] < 128
    ensures |Bytes(text)| == |text| && forall i :: 0 <= i < |text| ==> Bytes(text)[i] == text[i]
    decreases |text|
  {
    if text != [] {
      AsciiBytes(text[1..]);
      assert Encodings(text)[1..] == Encodings(text[1..]);
      assert Bytes(text) == [text[0]] + Bytes(text[1..]);
    }
  }

  lemma BytesAppend(a: seq<Scalar>, b: seq<Scalar>)
    ensures Bytes(a + b) == Bytes(a) + Bytes(b)
  {
    EncodingsPrefix(a + b, |a|);
    EncodingsSuffix(a + b, |a|);
    assert (a + b)[..|a|] == a && (a + b)[|a|..] == b;
    assert Encodings(a + b) == Encodings(a) + Encodings(b);
    Utf8Append(Encodings(a), Encodings(b));
  }

  lemma {:induction false} EncodingsSuffix(text: seq<Scalar>, k: nat)
    requires k <= |text|
    ensures Encodings(text[k..]) == Encodings(text)[k..]
    decreases |text|
  {
    if k > 0 {
      EncodingsSuffix(text[1..], k - 1);
      assert text[1..][k - 1..] == text[k..];
    }
  }

  const LETTERS: seq<Byte> := [0x5B, 0x74, 0x72, 0x75, 0x6E, 0x63, 0x61, 0x74, 0x65, 0x64, 0x5D]

  lemma WordLetters(i: nat)
    requires i < 11
    ensures "[truncated]"[i] as int == LETTERS[i]
  {
  }

  lemma WordBytes()
    ensures Bytes(Ascii("[truncated]")) == LETTERS
  {
    var word := Ascii("[truncated]");
    AsciiBytes(word);
    forall i: nat | i < 11 ensures Bytes(word)[i] == LETTERS[i] {
      WordLetters(i);
    }
  }

  lemma SignBytes()
    ensures Bytes([0x0A]) == [0x0A] && Bytes([0x2026]) == [0xE2, 0x80, 0xA6]
  {
    AsciiBytes([0x0A]);
    assert Encodings([0x2026]) == [Encode(0x2026)] + Encodings([0x2026][1..]);
    assert Utf8([Encode(0x2026)]) == Encode(0x2026) + Utf8([Encode(0x2026)][1..]);
  }

  lemma MarkerParts()
    ensures MARKER == [0x0A] + [0xE2, 0x80, 0xA6] + LETTERS
  {
  }

  /** The marker is a line break, the ellipsis U+2026 and `[truncated]`. */
  lemma MarkerReads()
    ensures MARKER == Bytes([0x0A] + [0x2026] + Ascii("[truncated]"))
  {
    var word := Ascii("[truncated]");
    BytesAppend([0x0A] + [0x2026], word);
    BytesAppend([0x0A], [0x2026]);
    SignBytes();
    WordBytes();
    MarkerParts();
  }
}
