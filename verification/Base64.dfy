/**
 The inline base64 codec of the keystore: chunks of three bytes out, buffers of four codes in.
 */
module Base64 {
  import opened Arith
  import opened Words
  import opened Wrappers

  type Byte = x: nat | x < 256
  type Chunk = c: seq<Byte> | 1 <= |c| <= 3 witness [0]
  type Quad = q: string | |q| == 4 witness "===="
  type Buffer = q: seq<Byte> | |q| == 4 witness [0, 0, 0, 0]

  const PAD: Byte := 255

  // ------------------------------------------------------------------ section 4 of RFC 4648

  /** Table 1: upper case, lower case, digits and two signs. */
  function Letter(d: nat): int
    requires d < 64
  {
    if d < 26 then 65 + d else if d < 52 then 71 + d else if d < 62 then d - 4 else if d == 62 then 43 else 47
  }

  function Charset(): (s: string)
    ensures |s| == 64
  {
    seq(64, d requires 0 <= d < 64 => Letter(d) as char)
  }

  lemma CharsetSpelled()
    ensures Charset() == "ABCDEFGHIJKLMNOPQRSTUVWXYZ" + "abcdefghijklmnopqrstuvwxyz" + "0123456789+/"
  {
  }

  /** The 24-bit group of three bytes. */
  function Group(b0: nat, b1: nat, b2: nat): nat {
    b0 * 0x10000 + b1 * 0x100 + b2
  }

  /** Digit k of a group, the most significant first. */
  function Digit(group: nat, k: nat): (d: nat)
    requires k < 4
    ensures d < 64
  {
    if k == 0 then group / 0x40000 % 64 else if k == 1 then group / 0x1000 % 64
    else if k == 2 then group / 64 % 64 else group % 64
  }

  /** One group: one to three bytes, missing ones zero, missing digits padded. */
  function EncodedChunk(c: Chunk): Quad {
    var group := Group(c[0], if |c| > 1 then c[1] else 0, if |c| > 2 then c[2] else 0);
    [Charset()[Digit(group, 0)], Charset()[Digit(group, 1)],
     if |c| > 1 then Charset()[Digit(group, 2)] else '=', if |c| > 2 then Charset()[Digit(group, 3)] else '=']
  }

  /** A byte string chunk by chunk, for any encoding of a chunk. */
  function EncodedBy(e: Chunk -> Quad, bytes: seq<Byte>): string
    decreases |bytes|
  {
    if bytes == [] then []
    else if |bytes| <= 3 then e(bytes)
    else e(bytes[..3]) + EncodedBy(e, bytes[3..])
  }

  function Encoded(bytes: seq<Byte>): string {
    EncodedBy(EncodedChunk, bytes)
  }

  lemma EncodedStep(e: Chunk -> Quad, bytes: seq<Byte>, n: nat)
    requires bytes != [] && n == Min(3, |bytes|)
    ensures EncodedBy(e, bytes) == e(bytes[..n]) + EncodedBy(e, bytes[n..])
  {
    if |bytes| <= 3 {
      assert bytes[..n] == bytes && bytes[n..] == [];
    }
  }

  lemma {:induction false} LengthBy(e: Chunk -> Quad, bytes: seq<Byte>)
    ensures |EncodedBy(e, bytes)| == 4 * ((|bytes| + 2) / 3)
    decreases |bytes|
  {
    if |bytes| > 3 {
      LengthBy(e, bytes[3..]);
      assert (|bytes[3..]| + 2) / 3 + 1 == (|bytes| + 2) / 3;
    }
  }

  /** Four characters for every three bytes begun. */
  lemma EncodedLength(bytes: seq<Byte>)
    ensures |Encoded(bytes)| == 4 * ((|bytes| + 2) / 3)
  {
    LengthBy(EncodedChunk, bytes);
  }

  lemma ChunkSpelled(c: Chunk, d0: nat, d1: nat, d2: nat, d3: nat)
    requires d0 < 64 && d1 < 64 && d2 < 64 && d3 < 64
    requires Group(c[0], if |c| > 1 then c[1] else 0, if |c| > 2 then c[2] else 0)
          == d0 * 0x40000 + d1 * 0x1000 + d2 * 64 + d3
    ensures EncodedChunk(c)
         == [Letter(d0) as char, Letter(d1) as char,
             if |c| > 1 then Letter(d2) as char else '=', if |c| > 2 then Letter(d3) as char else '=']
  {
    DigitsOf(d0, d1, d2, d3);
  }

  /** Section 10 of RFC 4648: the encodings of "f", "fo", "foo" and "foobar". */
  lemma TestVectors()
    ensures Encoded([102]) == "Zg==" && Encoded([102, 111]) == "Zm8=" && Encoded([102, 111, 111]) == "Zm9v"
    ensures Encoded([102, 111, 111, 98, 97, 114]) == "Zm9vYmFy"
  {
    var f, fo, foo, bar: Chunk := [102], [102, 111], [102, 111, 111], [98, 97, 114];
    ChunkSpelled(f, 25, 32, 0, 0);
    ChunkSpelled(fo, 25, 38, 60, 0);
    ChunkSpelled(foo, 25, 38, 61, 47);
    ChunkSpelled(bar, 24, 38, 5, 50);
    TwoChunks(EncodedChunk, foo, bar);
    assert foo + bar == [102, 111, 111, 98, 97, 114];
  }

  lemma TwoChunks(e: Chunk -> Quad, c: Chunk, d: Chunk)
    requires |c| == 3
    ensures EncodedBy(e, c) == e(c) && EncodedBy(e, c + d) == e(c) + e(d)
  {
    assert (c + d)[..3] == c && (c + d)[3..] == d;
  }

  // ------------------------------------------------------------------ bits

  lemma OrLow(h: nat, l: nat, k: nat)
    requires l < Pow2(k)
    ensures Or(h * Pow2(k), l) == h * Pow2(k) + l
  {
    OrCommutes(h * Pow2(k), l);
    OrDisjoint(l, h, k);
  }

  lemma {:induction false} OrCommutes(a: nat, b: nat)
    ensures Or(a, b) == Or(b, a)
    decreases a + b
  {
    if a > 0 || b > 0 {
      OrCommutes(a / 2, b / 2);
    }
  }

  lemma SmallPowers()
    ensures Pow2(2) == 4 && Pow2(4) == 16 && Pow2(6) == 64 && Pow2(8) == 256
  {
  }

  lemma DigitsOf(d0: nat, d1: nat, d2: nat, d3: nat)
    requires d0 < 64 && d1 < 64 && d2 < 64 && d3 < 64
    ensures var g := d0 * 0x40000 + d1 * 0x1000 + d2 * 64 + d3;
            Digit(g, 0) == d0 && Digit(g, 1) == d1 && Digit(g, 2) == d2 && Digit(g, 3) == d3
  {
    var g := d0 * 0x40000 + d1 * 0x1000 + d2 * 64 + d3;
    DivUnique(g, 0x40000, d0, d1 * 0x1000 + d2 * 64 + d3);
    DivUnique(g, 0x1000, d0 * 64 + d1, d2 * 64 + d3);
    DivUnique(g, 64, d0 * 0x1000 + d1 * 64 + d2, d3);
  }

  /** The bytes of a group cut into six-bit pieces. */
  lemma GroupDigits(q0: nat, r0: nat, q1: nat, r1: nat, q2: nat, r2: nat)
    requires q0 < 64 && r0 < 4 && q1 < 16 && r1 < 16 && q2 < 4 && r2 < 64
    ensures var g := Group(q0 * 4 + r0, q1 * 16 + r1, q2 * 64 + r2);
            Digit(g, 0) == q0 && Digit(g, 1) == r0 * 16 + q1 && Digit(g, 2) == r1 * 4 + q2 && Digit(g, 3) == r2
  {
    DigitsOf(q0, r0 * 16 + q1, r1 * 4 + q2, r2);
  }

  // ------------------------------------------------------------------ encode

  /** The masks and shifts of `encode`: six bits at a time. */
  function Sextet0(b0: Byte): nat { Quot(b0, 4) }
  function Sextet1(b0: Byte, b1: Byte): nat { Or((b0 % 4) * 16, Quot(b1, 16)) }
  function Sextet2(b1: Byte, b2: Byte): nat { Or((b1 % 16) * 4, Quot(b2, 64)) }
  function Sextet3(b2: Byte): nat { b2 % 64 }

  lemma SextetPieces(b0: Byte, b1: Byte, b2: Byte, r0: nat, q1: nat, r1: nat, q2: nat)
    requires b0 % 4 == r0 && Quot(b1, 16) == q1 && b1 % 16 == r1 && Quot(b2, 64) == q2
    requires q1 < 16 && q2 < 4
    ensures Sextet1(b0, b1) == r0 * 16 + q1 && Sextet2(b1, b2) == r1 * 4 + q2
  {
    SmallPowers();
    OrLow(r0, q1, 4);
    OrLow(r1, q2, 2);
  }

  /** They are the digits of the group. */
  lemma ChunkDigits(b0: Byte, b1: Byte, b2: Byte)
    ensures Sextet0(b0) == Digit(Group(b0, b1, b2), 0)
    ensures Sextet1(b0, b1) == Digit(Group(b0, b1, b2), 1)
    ensures Sextet2(b1, b2) == Digit(Group(b0, b1, b2), 2)
    ensures Sextet3(b2) == Digit(Group(b0, b1, b2), 3)
  {
    var q0, r0 := Divided(b0, 4);
    var q1, r1 := Divided(b1, 16);
    var q2, r2 := Divided(b2, 64);
    SextetPieces(b0, b1, b2, r0, q1, r1, q2);
    GroupDigits(q0, r0, q1, r1, q2, r2);
  }

  /** The chunk encoder by its name; spelled so that only a mention of `EncodedChunk` unfolds it. */
  ghost predicate IsEncoder(e: Chunk -> Quad) {
    forall c: Chunk {:trigger EncodedChunk(c)} :: e(c) == EncodedChunk(c)
  }

  /** The four characters of one chunk. */
  method EncodeChunk(ghost e: Chunk -> Quad, chunk: Chunk) returns (out: string)
    requires IsEncoder(e)
    ensures out == e(chunk)
  {
    var b0 := chunk[0];
    var b1 := if |chunk| > 1 then chunk[1] else 0;
    var b2 := if |chunk| > 2 then chunk[2] else 0;
    ChunkDigits(b0, b1, b2);
    out := [Charset()[Sextet0(b0)], Charset()[Sextet1(b0, b1)]];
    if |chunk| > 1 {
      out := out + [Charset()[Sextet2(b1, b2)]];
    } else {
      out := out + ['='];
    }
    if |chunk| > 2 {
      out := out + [Charset()[Sextet3(b2)]];
    } else {
      out := out + ['='];
    }
    assert out == EncodedChunk(chunk);
  }

  lemma EncodedNext(e: Chunk -> Quad, bytes: seq<Byte>, i: nat, end: nat)
    requires i < |bytes| && end == Min(i + 3, |bytes|)
    ensures EncodedBy(e, bytes[i..]) == e(bytes[i..end]) + EncodedBy(e, bytes[end..])
  {
    var rest := bytes[i..];
    EncodedStep(e, rest, end - i);
    assert rest[..end - i] == bytes[i..end] && rest[end - i..] == bytes[end..];
  }

  method EncodeBy(ghost e: Chunk -> Quad, bytes: seq<Byte>) returns (out: string)
    requires IsEncoder(e)
    ensures out == EncodedBy(e, bytes)
  {
    out := [];
    var i := 0;
    while i < |bytes|
      invariant i <= |bytes|
      invariant out + EncodedBy(e, bytes[i..]) == EncodedBy(e, bytes)
    {
      var end := Min(i + 3, |bytes|);
      EncodedNext(e, bytes, i, end);
      var chunk := EncodeChunk(e, bytes[i..end]);
      out := out + chunk;
      i := end;
    }
    assert bytes[i..] == [];
  }

  method Encode(bytes: seq<Byte>) returns (out: string)
    ensures out == Encoded(bytes)
  {
    assert IsEncoder(EncodedChunk);
    out := EncodeBy(EncodedChunk, bytes);
  }

  // ------------------------------------------------------------------ what decode computes

  /** Unicode White_Space. */
  predicate IsWhitespace(c: char) {
    var u := c as int;
    0x09 <= u <= 0x0D || u == 0x20 || u == 0x85 || u == 0xA0 || u == 0x1680 || 0x2000 <= u <= 0x200A
    || u == 0x2028 || u == 0x2029 || u == 0x202F || u == 0x205F || u == 0x3000
  }

  /** The 25 code points. */
  lemma WhitespaceListed(c: char)
    ensures IsWhitespace(c)
       <==> c as int in {9, 10, 11, 12, 13, 32, 133, 160, 5760, 8192, 8193, 8194, 8195, 8196, 8197, 8198, 8199, 8200,
                         8201, 8202, 8232, 8233, 8239, 8287, 12288}
  {
  }

  /** The first place of a byte in the alphabet. */
  function Position(alphabet: string, b: int): (p: Option<nat>)
    ensures p.Some? ==> p.value < |alphabet|
  {
    if alphabet == [] then None
    else if alphabet[0] as int == b then Some(0)
    else
      var p := Position(alphabet[1..], b);
      if p.None? then None else Some(p.value + 1)
  }

  /** The code of one character; only its low byte is looked up. */
  function Code(c: char): Option<Byte> {
    if c == '=' then Some(PAD)
    else Position(Charset(), c as int % 256)
  }

  function Visible(s: string): string {
    if s == [] then [] else Visible(s[..|s| - 1]) + if IsWhitespace(s[|s| - 1]) then [] else [s[|s| - 1]]
  }

  /** The codes of all characters, or the first that has none, for any table of codes. */
  function CodesBy(code: char -> Option<Byte>, s: string): Result<seq<Byte>, char>
    decreases |s|
  {
    if s == [] then Ok([])
    else
      var init := CodesBy(code, s[..|s| - 1]);
      if init.Err? then init
      else if code(s[|s| - 1]).None? then Err(s[|s| - 1])
      else Ok(init.value + [code(s[|s| - 1]).value])
  }

  function OrByte(a: Byte, b: Byte): Byte {
    SmallPowers();
    OrBound(a, b, 8);
    Or(a, b)
  }

  /** `x << n` and `x >> n` of a byte, for the factor 2^n: shifts drop what leaves the byte. */
  function Shl(x: Byte, factor: nat): Byte {
    (x * factor) % 256
  }

  function Shr(x: Byte, factor: nat): Byte
    requires factor >= 1
  {
    Quot(x, factor)
  }

  /** The bytes of a full buffer. */
  function BufferBytes(q: Buffer): seq<Byte> {
    [OrByte(Shl(q[0], 4), Shr(q[1], 16))]
    + (if q[2] != PAD then [OrByte(Shl(q[1], 16), Shr(q[2], 4))] else [])
    + (if q[3] != PAD then [OrByte(Shl(q[2], 64), q[3])] else [])
  }

  /** Full buffers only, for any way to empty one: what is left over at the end is dropped. */
  function QuadsBy(d: Buffer -> seq<Byte>, codes: seq<Byte>): seq<Byte>
    decreases |codes|
  {
    if |codes| < 4 then [] else d(codes[..4]) + QuadsBy(d, codes[4..])
  }

  function DecodedBy(code: char -> Option<Byte>, d: Buffer -> seq<Byte>, s: string): Result<seq<Byte>, char> {
    var codes := CodesBy(code, Visible(s));
    if codes.Err? then Err(codes.error) else Ok(QuadsBy(d, codes.value))
  }

  function Decoded(s: string): Result<seq<Byte>, char> {
    DecodedBy(Code, BufferBytes, s)
  }

  lemma {:induction false} QuadsConcat(d: Buffer -> seq<Byte>, a: seq<Byte>, b: seq<Byte>)
    requires |a| % 4 == 0
    ensures QuadsBy(d, a + b) == QuadsBy(d, a) + QuadsBy(d, b)
    decreases |a|
  {
    if a == [] {
      assert a + b == b;
    } else {
      assert (a + b)[..4] == a[..4] && (a + b)[4..] == a[4..] + b;
      QuadsConcat(d, a[4..], b);
    }
  }

  lemma QuadsOne(d: Buffer -> seq<Byte>, q: Buffer)
    ensures QuadsBy(d, q) == d(q)
  {
    assert q[..4] == q && QuadsBy(d, q[4..]) == [];
  }

  lemma CodesSnoc(code: char -> Option<Byte>, s: string, c: char)
    ensures CodesBy(code, s + [c])
         == if CodesBy(code, s).Err? then CodesBy(code, s)
            else if code(c).None? then Err(c)
            else Ok(CodesBy(code, s).value + [code(c).value])
  {
    assert (s + [c])[..|s|] == s;
  }

  lemma VisibleSnoc(s: string, j: nat)
    requires j < |s|
    ensures Visible(s[..j + 1]) == if IsWhitespace(s[j]) then Visible(s[..j]) else Visible(s[..j]) + [s[j]]
  {
    assert s[..j + 1][..j] == s[..j];
  }

  /** An error in a prefix is the error of the whole. */
  lemma {:induction false} ErrorStays(code: char -> Option<Byte>, s: string, j: nat, c: char)
    requires j <= |s| && CodesBy(code, Visible(s[..j])) == Err(c)
    ensures CodesBy(code, Visible(s)) == Err(c)
    decreases |s| - j
  {
    if j < |s| {
      VisibleSnoc(s, j);
      CodesSnoc(code, Visible(s[..j]), s[j]);
      ErrorStays(code, s, j + 1, c);
    } else {
      assert s[..j] == s;
    }
  }

  // ------------------------------------------------------------------ decode

  /** `done` was emptied into `out`; `pending` is in the buffer. */
  ghost predicate Reading(code: char -> Option<Byte>, d: Buffer -> seq<Byte>, s: string, j: nat,
                          done: seq<Byte>, pending: seq<Byte>, out: seq<Byte>)
    requires j <= |s|
  {
    && |pending| < 4 && |done| % 4 == 0 && out == QuadsBy(d, done)
    && CodesBy(code, Visible(s[..j])) == Ok(done + pending)
  }

  lemma ReadCode(code: char -> Option<Byte>, d: Buffer -> seq<Byte>, s: string, j: nat,
                 done: seq<Byte>, pending: seq<Byte>, out: seq<Byte>, v: Byte)
    requires j < |s| && Reading(code, d, s, j, done, pending, out)
    requires !IsWhitespace(s[j]) && code(s[j]) == Some(v)
    ensures |pending| < 3 ==> Reading(code, d, s, j + 1, done, pending + [v], out)
    ensures |pending| == 3 ==> Reading(code, d, s, j + 1, done + (pending + [v]), [], out + d(pending + [v]))
  {
    VisibleSnoc(s, j);
    CodesSnoc(code, Visible(s[..j]), s[j]);
    assert (done + pending) + [v] == done + (pending + [v]);
    if |pending| == 3 {
      QuadsConcat(d, done, pending + [v]);
      QuadsOne(d, pending + [v]);
      assert (done + (pending + [v])) + [] == done + (pending + [v]);
    }
  }

  ghost predicate IsDecoder(d: Buffer -> seq<Byte>) {
    forall q: Buffer {:trigger BufferBytes(q)} :: d(q) == BufferBytes(q)
  }

  /** The three shifts over a full buffer. */
  method EmptyBuffer(ghost d: Buffer -> seq<Byte>, buf: array<Byte>) returns (out: seq<Byte>)
    requires buf.Length == 4 && IsDecoder(d)
    ensures out == d(buf[..])
  {
    out := [OrByte(Shl(buf[0], 4), Shr(buf[1], 16))];
    if buf[2] != PAD {
      out := out + [OrByte(Shl(buf[1], 16), Shr(buf[2], 4))];
    }
    if buf[3] != PAD {
      out := out + [OrByte(Shl(buf[2], 64), buf[3])];
    }
    assert out == BufferBytes(buf[..]);
  }

  /** The decoder over its four-byte buffer: `buf` fills up to `i`, and a full one is emptied. */
  method DecodeBy(code: char -> Option<Byte>, ghost d: Buffer -> seq<Byte>, s: string)
      returns (r: Result<seq<Byte>, char>)
    requires IsDecoder(d)
    ensures r == DecodedBy(code, d, s)
  {
    var buf := new Byte[4](_ => 0);
    var out: seq<Byte> := [];
    var i := 0;
    ghost var done: seq<Byte> := [];
    assert s[..0] == [] && done + buf[..0] == [];
    for j := 0 to |s|
      invariant i < 4 && Reading(code, d, s, j, done, buf[..i], out)
    {
      var c := s[j];
      if IsWhitespace(c) {
        VisibleSnoc(s, j);
        continue;
      }
      var v := code(c);
      if v.None? {
        VisibleSnoc(s, j);
        CodesSnoc(code, Visible(s[..j]), c);
        ErrorStays(code, s, j + 1, c);
        return Err(c);
      }
      ghost var pending := buf[..i];
      ReadCode(code, d, s, j, done, pending, out, v.value);
      buf[i] := v.value;
      i := i + 1;
      assert buf[..i] == pending + [v.value];
      if i == 4 {
        assert buf[..] == pending + [v.value];
        var bytes := EmptyBuffer(d, buf);
        out := out + bytes;
        done := done + (pending + [v.value]);
        i := 0;
        assert buf[..i] == [];
      }
    }
    assert s[..|s|] == s;
    QuadsConcat(d, done, buf[..i]);
    assert out + QuadsBy(d, buf[..i]) == out;
    r := Ok(out);
  }

  method Decode(s: string) returns (r: Result<seq<Byte>, char>)
    ensures r == Decoded(s)
  {
    assert IsDecoder(BufferBytes);
    r := DecodeBy(Code, BufferBytes, s);
  }

  // ------------------------------------------------------------------ the alphabet

  lemma {:induction false} PositionAt(alphabet: string, d: nat)
    requires d < |alphabet| && forall i :: 0 <= i < d ==> alphabet[i] != alphabet[d]
    ensures Position(alphabet, alphabet[d] as int) == Some(d)
  {
    if d > 0 {
      assert alphabet[0] != alphabet[d];
      PositionAt(alphabet[1..], d - 1);
    }
  }

  lemma CodeOfDigit(d: nat)
    requires d < 64
    ensures Code(Charset()[d]) == Some(d) && !IsWhitespace(Charset()[d])
  {
    var cs := Charset();
    assert cs[d] as int == Letter(d);
    forall i | 0 <= i < d ensures cs[i] != cs[d] {
      assert cs[i] as int == Letter(i);
    }
    PositionAt(cs, d);
  }

  // ------------------------------------------------------------------ round trip

  /** Encoding, looking up and emptying give the chunk back, and nothing written is white space. */
  ghost predicate Inverts(e: Chunk -> Quad, code: char -> Option<Byte>, d: Buffer -> seq<Byte>, c: Chunk) {
    && (forall k :: 0 <= k < 4 ==> code(e(c)[k]).Some? && !IsWhitespace(e(c)[k]))
    && d([code(e(c)[0]).value, code(e(c)[1]).value, code(e(c)[2]).value, code(e(c)[3]).value]) == c
  }

  lemma BufferOfPieces(q0: nat, r0: nat, q1: nat, r1: nat, q2: nat, r2: nat)
    requires q0 < 64 && r0 < 4 && q1 < 16 && r1 < 16 && q2 < 4 && r2 < 64
    ensures OrByte(Shl(q0, 4), Shr(r0 * 16 + q1, 16)) == q0 * 4 + r0
    ensures OrByte(Shl(r0 * 16 + q1, 16), Shr(r1 * 4 + q2, 4)) == q1 * 16 + r1
    ensures OrByte(Shl(r1 * 4 + q2, 64), r2) == q2 * 64 + r2
  {
    SmallPowers();
    DivUnique(r0 * 16 + q1, 16, r0, q1);
    DivUnique(r1 * 4 + q2, 4, r1, q2);
    assert Shr(r0 * 16 + q1, 16) == r0 && Shr(r1 * 4 + q2, 4) == r1;
    DivUnique((r0 * 16 + q1) * 16, 256, r0, q1 * 16);
    DivUnique((r1 * 4 + q2) * 64, 256, r1, q2 * 64);
    assert Shl(q0, 4) == q0 * 4 && Shl(r0 * 16 + q1, 16) == q1 * 16 && Shl(r1 * 4 + q2, 64) == q2 * 64;
    OrLow(q0, r0, 2);
    OrLow(q1, r1, 4);
    OrLow(q2, r2, 6);
  }

  ghost function At(c: Chunk, k: nat): Byte {
    if k < |c| then c[k] else 0
  }

  /** The codes the decoder reads off an encoded chunk: digits as far as the chunk goes, then padding. */
  ghost function ChunkBuffer(c: Chunk, d0: Byte, d1: Byte, d2: Byte, d3: Byte): Buffer {
    [d0, d1, if |c| > 1 then d2 else PAD, if |c| > 2 then d3 else PAD]
  }

  ghost predicate CodesAre(q: Quad, codes: Buffer) {
    forall k :: 0 <= k < 4 ==> Code(q[k]) == Some(codes[k]) && !IsWhitespace(q[k])
  }

  lemma ChunkCodes(c: Chunk, d0: nat, d1: nat, d2: nat, d3: nat)
    requires var g := Group(At(c, 0), At(c, 1), At(c, 2));
             d0 == Digit(g, 0) && d1 == Digit(g, 1) && d2 == Digit(g, 2) && d3 == Digit(g, 3)
    ensures CodesAre(EncodedChunk(c), ChunkBuffer(c, d0, d1, d2, d3))
  {
    CodeOfDigit(d0);
    CodeOfDigit(d1);
    CodeOfDigit(d2);
    CodeOfDigit(d3);
  }

  lemma BufferBytesAre(c: Chunk, d0: Byte, d1: Byte, d2: Byte, d3: Byte)
    requires d2 < 64 && d3 < 64
    requires OrByte(Shl(d0, 4), Shr(d1, 16)) == c[0]
    requires OrByte(Shl(d1, 16), Shr(d2, 4)) == At(c, 1) && OrByte(Shl(d2, 64), d3) == At(c, 2)
    ensures BufferBytes(ChunkBuffer(c, d0, d1, d2, d3)) == c
  {
  }

  lemma ChunkBytes(c: Chunk, q0: nat, r0: nat, q1: nat, r1: nat, q2: nat, r2: nat)
    requires q0 < 64 && r0 < 4 && q1 < 16 && r1 < 16 && q2 < 4 && r2 < 64
    requires At(c, 0) == q0 * 4 + r0 && At(c, 1) == q1 * 16 + r1 && At(c, 2) == q2 * 64 + r2
    ensures BufferBytes(ChunkBuffer(c, q0, r0 * 16 + q1, r1 * 4 + q2, r2)) == c
  {
    BufferOfPieces(q0, r0, q1, r1, q2, r2);
    BufferBytesAre(c, q0, r0 * 16 + q1, r1 * 4 + q2, r2);
  }

  lemma InvertsFrom(c: Chunk, q: Buffer)
    requires CodesAre(EncodedChunk(c), q) && BufferBytes(q) == c
    ensures Inverts(EncodedChunk, Code, BufferBytes, c)
  {
    var e := EncodedChunk(c);
    assert [Code(e[0]).value, Code(e[1]).value, Code(e[2]).value, Code(e[3]).value] == q;
  }

  lemma ChunkInverts(c: Chunk)
    ensures Inverts(EncodedChunk, Code, BufferBytes, c)
  {
    var q0, r0 := Divided(At(c, 0), 4);
    var q1, r1 := Divided(At(c, 1), 16);
    var q2, r2 := Divided(At(c, 2), 64);
    GroupDigits(q0, r0, q1, r1, q2, r2);
    ChunkCodes(c, q0, r0 * 16 + q1, r1 * 4 + q2, r2);
    ChunkBytes(c, q0, r0, q1, r1, q2, r2);
    InvertsFrom(c, ChunkBuffer(c, q0, r0 * 16 + q1, r1 * 4 + q2, r2));
  }

  lemma {:induction false} CodesConcat(code: char -> Option<Byte>, a: string, b: string)
    requires CodesBy(code, a).Ok? && CodesBy(code, b).Ok?
    ensures CodesBy(code, a + b) == Ok(CodesBy(code, a).value + CodesBy(code, b).value)
    decreases |b|
  {
    if b == [] {
      assert a + b == a && CodesBy(code, a).value + [] == CodesBy(code, a).value;
    } else {
      var init, last := b[..|b| - 1], b[|b| - 1];
      CodesConcat(code, a, init);
      CodesSnoc(code, a + init, last);
      assert (a + init) + [last] == a + b;
      var x, y, v := CodesBy(code, a).value, CodesBy(code, init).value, code(last).value;
      assert (x + y) + [v] == x + (y + [v]);
    }
  }

  lemma CodesOfQuad(code: char -> Option<Byte>, q: Quad)
    requires forall k :: 0 <= k < 4 ==> code(q[k]).Some?
    ensures CodesBy(code, q) == Ok([code(q[0]).value, code(q[1]).value, code(q[2]).value, code(q[3]).value])
  {
    var v0, v1, v2, v3 := code(q[0]).value, code(q[1]).value, code(q[2]).value, code(q[3]).value;
    assert q[..0] == [] && q[..4] == q;
    CodesPrefix(code, q, 0, [], v0, [v0]);
    CodesPrefix(code, q, 1, [v0], v1, [v0, v1]);
    CodesPrefix(code, q, 2, [v0, v1], v2, [v0, v1, v2]);
    CodesPrefix(code, q, 3, [v0, v1, v2], v3, [v0, v1, v2, v3]);
  }

  lemma CodesPrefix(code: char -> Option<Byte>, q: Quad, k: nat, codes: seq<Byte>, v: Byte, longer: seq<Byte>)
    requires k < 4 && CodesBy(code, q[..k]) == Ok(codes) && code(q[k]) == Some(v) && longer == codes + [v]
    ensures CodesBy(code, q[..k + 1]) == Ok(longer)
  {
    assert q[..k + 1] == q[..k] + [q[k]];
    CodesSnoc(code, q[..k], q[k]);
  }

  /** The text is whole buffers that empty into the bytes. */
  ghost predicate Reads(code: char -> Option<Byte>, d: Buffer -> seq<Byte>, s: string, bytes: seq<Byte>) {
    var codes := CodesBy(code, s);
    codes.Ok? && |codes.value| % 4 == 0 && QuadsBy(d, codes.value) == bytes
  }

  lemma ReadsConcat(code: char -> Option<Byte>, d: Buffer -> seq<Byte>, s: string, x: seq<Byte>, t: string,
      y: seq<Byte>)
    requires Reads(code, d, s, x) && Reads(code, d, t, y)
    ensures Reads(code, d, s + t, x + y)
  {
    var a, b := CodesBy(code, s).value, CodesBy(code, t).value;
    CodesConcat(code, s, t);
    QuadsJoin(d, a, b, x, y);
    ReadsFrom(code, d, s + t, a + b, x + y);
  }

  lemma QuadsJoin(d: Buffer -> seq<Byte>, a: seq<Byte>, b: seq<Byte>, x: seq<Byte>, y: seq<Byte>)
    requires |a| % 4 == 0 && |b| % 4 == 0 && QuadsBy(d, a) == x && QuadsBy(d, b) == y
    ensures |a + b| % 4 == 0 && QuadsBy(d, a + b) == x + y
  {
    QuadsConcat(d, a, b);
  }

  lemma ReadsFrom(code: char -> Option<Byte>, d: Buffer -> seq<Byte>, s: string, codes: seq<Byte>, bytes: seq<Byte>)
    requires CodesBy(code, s) == Ok(codes) && |codes| % 4 == 0 && QuadsBy(d, codes) == bytes
    ensures Reads(code, d, s, bytes)
  {
  }

  lemma ReadsChunk(e: Chunk -> Quad, code: char -> Option<Byte>, d: Buffer -> seq<Byte>, c: Chunk)
    requires Inverts(e, code, d, c)
    ensures Reads(code, d, e(c), c)
  {
    CodesOfQuad(code, e(c));
    QuadsOne(d, CodesBy(code, e(c)).value);
  }

  lemma {:induction false} RoundTripBy(e: Chunk -> Quad, code: char -> Option<Byte>, d: Buffer -> seq<Byte>,
      bytes: seq<Byte>)
    requires forall c: Chunk :: Inverts(e, code, d, c)
    ensures Reads(code, d, EncodedBy(e, bytes), bytes)
    decreases |bytes|
  {
    if bytes != [] {
      var n := Min(3, |bytes|);
      EncodedStep(e, bytes, n);
      RoundTripBy(e, code, d, bytes[n..]);
      assert Inverts(e, code, d, bytes[..n]);
      ReadsChunk(e, code, d, bytes[..n]);
      ReadsConcat(code, d, e(bytes[..n]), bytes[..n], EncodedBy(e, bytes[n..]), bytes[n..]);
      assert bytes[..n] + bytes[n..] == bytes;
    }
  }

  /**
   Decoding gives back every byte string, also when white space was put anywhere into the
   encoded text.
   */
  lemma DecodeEncode(bytes: seq<Byte>, s: string)
    requires Visible(s) == Encoded(bytes)
    ensures Decoded(s) == Ok(bytes)
  {
    forall c: Chunk ensures Inverts(EncodedChunk, Code, BufferBytes, c) {
      ChunkInverts(c);
    }
    RoundTripBy(EncodedChunk, Code, BufferBytes, bytes);
  }

  lemma {:induction false} VisibleConcat(a: string, b: string)
    ensures Visible(a + b) == Visible(a) + Visible(b)
    decreases |b|
  {
    if b == [] {
      assert a + b == a;
    } else {
      assert (a + b)[..|a + b| - 1] == a + b[..|b| - 1];
      VisibleConcat(a, b[..|b| - 1]);
    }
  }

  lemma {:induction false} AllVisible(s: string)
    requires forall i :: 0 <= i < |s| ==> !IsWhitespace(s[i])
    ensures Visible(s) == s
    decreases |s|
  {
    if s != [] {
      AllVisible(s[..|s| - 1]);
      assert s[..|s| - 1] + [s[|s| - 1]] == s;
    }
  }

  lemma {:induction false} VisibleBy(e: Chunk -> Quad, code: char -> Option<Byte>, d: Buffer -> seq<Byte>,
      bytes: seq<Byte>)
    requires forall c: Chunk :: Inverts(e, code, d, c)
    ensures Visible(EncodedBy(e, bytes)) == EncodedBy(e, bytes)
    decreases |bytes|
  {
    if bytes != [] {
      var n := Min(3, |bytes|);
      var chunk: Chunk := bytes[..n];
      EncodedStep(e, bytes, n);
      VisibleBy(e, code, d, bytes[n..]);
      assert Inverts(e, code, d, chunk);
      AllVisible(e(chunk));
      VisibleConcat(e(chunk), EncodedBy(e, bytes[n..]));
    }
  }

  /** `decode(encode(b)) == b` for every byte string. */
  lemma RoundTrip(bytes: seq<Byte>)
    ensures Decoded(Encoded(bytes)) == Ok(bytes)
  {
    forall c: Chunk ensures Inverts(EncodedChunk, Code, BufferBytes, c) {
      ChunkInverts(c);
    }
    VisibleBy(EncodedChunk, Code, BufferBytes, bytes);
    DecodeEncode(bytes, Encoded(bytes));
  }

  // ------------------------------------------------------------------ what decode refuses and drops

  /** Neither white space nor padding, and its low byte is no letter of the alphabet. */
  ghost predicate Refused(c: char) {
    !IsWhitespace(c) && c != '=' && forall d :: 0 <= d < 64 ==> Letter(d) != c as int % 256
  }

  lemma {:induction false} PositionIff(alphabet: string, b: int)
    ensures Position(alphabet, b).Some? ==> alphabet[Position(alphabet, b).value] as int == b
    ensures Position(alphabet, b).None? ==> forall d :: 0 <= d < |alphabet| ==> alphabet[d] as int != b
  {
    if alphabet != [] && alphabet[0] as int != b {
      PositionIff(alphabet[1..], b);
    }
  }

  /** A character has no code exactly when it is refused; else the code is its place in the alphabet. */
  lemma CodeIff(c: char)
    requires !IsWhitespace(c)
    ensures Code(c).None? <==> Refused(c)
    ensures c == '=' ==> Code(c) == Some(255)
    ensures c != '=' && Code(c).Some? ==> Code(c).value < 64 && Letter(Code(c).value) == c as int % 256
  {
    PositionIff(Charset(), c as int % 256);
    if c != '=' && Code(c).None? {
      forall d | 0 <= d < 64 ensures Letter(d) != c as int % 256 {
        assert Charset()[d] as int == Letter(d);
      }
    }
  }

  /** Up to the first refused character every character has a code. */
  lemma {:induction false} NoneRefused(s: string, j: nat)
    requires j <= |s| && forall i :: 0 <= i < j ==> !Refused(s[i])
    ensures CodesBy(Code, Visible(s[..j])).Ok?
  {
    if j > 0 {
      NoneRefused(s, j - 1);
      VisibleSnoc(s, j - 1);
      if !IsWhitespace(s[j - 1]) {
        CodesSnoc(Code, Visible(s[..j - 1]), s[j - 1]);
        CodeIff(s[j - 1]);
      }
    }
  }

  /** The first refused character is what the error reports. */
  lemma RefusedFirst(s: string, j: nat)
    requires j < |s| && Refused(s[j]) && forall i :: 0 <= i < j ==> !Refused(s[i])
    ensures Decoded(s) == Err(s[j])
  {
    NoneRefused(s, j);
    VisibleSnoc(s, j);
    CodesSnoc(Code, Visible(s[..j]), s[j]);
    CodeIff(s[j]);
    ErrorStays(Code, s, j + 1, s[j]);
  }

  /** Decoding fails exactly when some character is refused. */
  lemma DecodeFailsIff(s: string)
    ensures Decoded(s).Err? <==> exists j :: 0 <= j < |s| && Refused(s[j])
  {
    for j := 0 to |s|
      invariant forall i :: 0 <= i < j ==> !Refused(s[i])
    {
      if Refused(s[j]) {
        RefusedFirst(s, j);
        return;
      }
    }
    NoneRefused(s, |s|);
    assert s[..|s|] == s;
  }

  lemma DigitParts(b: Byte, c: Byte) returns (r0: nat, q1: nat, r1: nat, q2: nat)
    requires b < 64 && c < 64
    ensures r0 == b / 16 && q1 == b % 16 && r1 == c / 4 && q2 == c % 4
    ensures r0 < 4 && q1 < 16 && r1 < 16 && q2 < 4 && b == r0 * 16 + q1 && c == r1 * 4 + q2
  {
    r0, q1, r1, q2 := b / 16, b % 16, c / 4, c % 4;
  }

  lemma PaddedPart(d: Byte)
    requires d < 64
    ensures OrByte(Shl(PAD, 64), d) == 192 + d
  {
    SmallPowers();
    assert Shl(PAD, 64) == 192;
    OrLow(3, d, 6);
  }

  lemma BufferParts(a: Byte, b: Byte, c: Byte, d: Byte, x: nat, y: nat, z: nat)
    requires OrByte(Shl(a, 4), Shr(b, 16)) == x
    requires c != PAD ==> OrByte(Shl(b, 16), Shr(c, 4)) == y
    requires d != PAD ==> OrByte(Shl(c, 64), d) == z
    ensures BufferBytes([a, b, c, d]) == [x] + (if c != PAD then [y] else []) + (if d != PAD then [z] else [])
  {
  }

  /** The bytes of a full buffer in numbers, whatever the bits that padding leaves over. */
  lemma BufferMeans(a: Byte, b: Byte, c: Byte, d: Byte) returns (x: nat, y: nat, z: nat)
    requires a < 64 && b < 64 && c < 64 && d < 64
    ensures x == a * 4 + b / 16 && y == b % 16 * 16 + c / 4 && z == c % 4 * 64 + d
    ensures BufferBytes([a, b, c, d]) == [x, y, z] && BufferBytes([a, b, c, 255]) == [x, y]
    ensures BufferBytes([a, b, 255, 255]) == [x] && BufferBytes([a, b, 255, d]) == [x, 192 + d]
  {
    var r0, q1, r1, q2 := DigitParts(b, c);
    BufferOfPieces(a, r0, q1, r1, q2, d);
    PaddedPart(d);
    x, y, z := a * 4 + r0, q1 * 16 + r1, q2 * 64 + d;
    BufferParts(a, b, c, d, x, y, z);
    BufferParts(a, b, c, 255, x, y, z);
    BufferParts(a, b, 255, 255, x, y, z);
    BufferParts(a, b, 255, d, x, y, 192 + d);
  }

  lemma {:induction false} DigitsOnly(s: string)
    requires forall i :: 0 <= i < |s| ==> !IsWhitespace(s[i]) && s[i] != '='
    requires CodesBy(Code, s).Ok?
    ensures |CodesBy(Code, s).value| == |s|
    ensures forall i :: 0 <= i < |s| ==> CodesBy(Code, s).value[i] < 64
  {
    if s != [] {
      DigitsOnly(s[..|s| - 1]);
      CodeIff(s[|s| - 1]);
    }
  }

  ghost predicate GivesThree(d: Buffer -> seq<Byte>, q: Buffer) {
    q[0] < 64 && q[1] < 64 && q[2] < 64 && q[3] < 64 ==> |d(q)| == 3
  }

  lemma {:induction false} DigitQuads(d: Buffer -> seq<Byte>, codes: seq<Byte>)
    requires forall q: Buffer :: GivesThree(d, q)
    requires forall i :: 0 <= i < |codes| ==> codes[i] < 64
    ensures |QuadsBy(d, codes)| == 3 * (|codes| / 4)
    decreases |codes|
  {
    if |codes| >= 4 {
      DigitQuads(d, codes[4..]);
      assert GivesThree(d, codes[..4]);
    }
  }

  /** Without padding every four characters give three bytes, and up to three at the end are dropped. */
  lemma UnpaddedLength(s: string)
    requires forall i :: 0 <= i < |s| ==> !IsWhitespace(s[i]) && s[i] != '='
    requires Decoded(s).Ok?
    ensures |Decoded(s).value| == 3 * (|s| / 4)
  {
    AllVisible(s);
    DigitsOnly(s);
    forall q: Buffer ensures GivesThree(BufferBytes, q) {
    }
    DigitQuads(BufferBytes, CodesBy(Code, s).value);
  }
}
