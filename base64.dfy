/**
 * The Base64 codec of b64.c / b64.h: the standard alphabet of RFC 4648
 * section 4, three bytes to four characters, '=' padding, NUL-terminated
 * output. C strings are modelled as the sequence of characters before the
 * terminating NUL; the C bit operations on bytes are written with / and %
 * (a shift right by k is / 2^k, a mask is %, and an OR of disjoint bit
 * ranges is +).
 */
module Base64 {

  type uint8 = x: int | 0 <= x < 0x100

  /** size_t arithmetic wraps modulo 2^64: the model assumes a 64-bit
      size_t. On a 32-bit target such as wasm32 the modulus is 2^32. */
  const SizeModulus: int := 0x1_0000_0000_0000_0000

  /** The alphabet, in four runs. */
  const Table: string := "ABCDEFGHIJKLMNOPQRSTUVWXYZ" + "abcdefghijklmnopqrstuvwxyz" + "0123456789" + "+/"

  const Pad: char := '='

  /** The character of a six-bit value, by ranges. */
  function Letter(v: int): char
    requires 0 <= v < 64
  {
    if v < 26 then (v + 'A' as int) as char
    else if v < 52 then (v - 26 + 'a' as int) as char
    else if v < 62 then (v - 52 + '0' as int) as char
    else if v == 62 then '+'
    else '/'
  }

  /** The alphabet characters, by ranges. */
  predicate IsLetter(c: char)
  {
    'A' <= c <= 'Z' || 'a' <= c <= 'z' || '0' <= c <= '9' || c == '+' || c == '/'
  }

  /** The six-bit value of an alphabet character. */
  function Value(c: char): (v: int)
    requires IsLetter(c)
    ensures 0 <= v < 64
  {
    if 'A' <= c <= 'Z' then c as int - 'A' as int
    else if 'a' <= c <= 'z' then c as int - 'a' as int + 26
    else if '0' <= c <= '9' then c as int - '0' as int + 52
    else if c == '+' then 62
    else 63
  }

  lemma LetterValue(v: int)
    requires 0 <= v < 64
    ensures IsLetter(Letter(v)) && Value(Letter(v)) == v
  {
  }

  lemma ValueLetter(c: char)
    requires IsLetter(c)
    ensures Letter(Value(c)) == c
  {
  }

  /** The literal table lists the letters in value order. */
  lemma TableLetters()
    ensures |Table| == 64
    ensures forall v :: 0 <= v < 64 ==> Table[v] == Letter(v)
  {
    var upper := "ABCDEFGHIJKLMNOPQRSTUVWXYZ";
    var lower := "abcdefghijklmnopqrstuvwxyz";
    var digits := "0123456789";
    assert forall v :: 0 <= v < 26 ==> upper[v] == Letter(v);
    assert forall v :: 0 <= v < 26 ==> lower[v] == Letter(v + 26);
    assert forall v :: 0 <= v < 10 ==> digits[v] == Letter(v + 52);
  }

  /** strchr on a string without its NUL: the first index of c, or -1 when
      c does not occur (the NULL result). */
  function Find(s: string, c: char): (r: int)
    ensures -1 <= r < |s|
    ensures r >= 0 ==> s[r] == c && forall k :: 0 <= k < r ==> s[k] != c
    ensures r < 0 <==> c !in s
  {
    if |s| == 0 then -1
    else if s[0] == c then 0
    else
      var r := Find(s[1..], c);
      if r < 0 then -1 else r + 1
  }

  /** strchr on the table finds exactly the alphabet characters, at their
      values; '=' and every other character give NULL. */
  lemma FindTable(c: char)
    ensures IsLetter(c) ==> Find(Table, c) == Value(c)
    ensures !IsLetter(c) ==> Find(Table, c) == -1
  {
    TableLetters();
    var r := Find(Table, c);
    if IsLetter(c) {
      ValueLetter(c);
      assert Table[Value(c)] == c;
      LetterValue(r);
    } else if r >= 0 {
      LetterValue(r);
    }
  }

  /** strchr(B64_TABLE, c) - B64_TABLE: the value of an alphabet character,
      and -1 (the NULL case) for any other. */
  method Lookup(c: char) returns (r: int)
    ensures r == if IsLetter(c) then Value(c) else -1
  {
    r := Find(Table, c);
    FindTable(c);
  }

  /** b64_encoded_size: four characters for every started group of three. */
  function EncodedSize(n: nat): nat
  {
    (n + 2) / 3 * 4
  }

  /** One more group of three bytes is four more characters. */
  lemma EncodedSizeStep(n: nat)
    ensures n < 3 ==> EncodedSize(n) == if n == 0 then 0 else 4
    ensures n >= 3 ==> EncodedSize(n) == EncodedSize(n - 3) + 4
  {
    assert (n + 2) / 3 == if n >= 3 then (n - 1) / 3 + 1 else if n == 0 then 0 else 1;
  }

  /** EncodedSize(n) is 4 * ceil(n / 3): a multiple of four, zero only for
      n = 0, and the least multiple of four whose groups hold n bytes. */
  lemma {:induction false} EncodedSizeCeiling(n: nat)
    ensures EncodedSize(n) % 4 == 0
    ensures EncodedSize(n) == 0 <==> n == 0
    ensures 3 * (EncodedSize(n) / 4) - 3 < n <= 3 * (EncodedSize(n) / 4)
  {
    EncodedSizeStep(n);
    if n >= 3 {
      EncodedSizeCeiling(n - 3);
    }
  }

  /** The four characters of one group of three bytes. */
  function Quad(b0: uint8, b1: uint8, b2: uint8): string
  {
    Chars([b0 / 4, b0 % 4 * 16 + b1 / 16, b1 % 16 * 4 + b2 / 64, b2 % 64])
  }

  /** The characters of a sequence of six-bit values. */
  function Chars(vs: seq<int>): (r: string)
    requires forall k :: 0 <= k < |vs| ==> 0 <= vs[k] < 64
    ensures |r| == |vs|
  {
    if |vs| == 0 then [] else [Letter(vs[0])] + Chars(vs[1..])
  }

  /** The four characters of a group, one by one. */
  lemma QuadChars(b0: uint8, b1: uint8, b2: uint8)
    ensures Quad(b0, b1, b2) == [Letter(b0 / 4), Letter(b0 % 4 * 16 + b1 / 16), Letter(b1 % 16 * 4 + b2 / 64), Letter(b2 % 64)]
  {
    var vs := [b0 / 4, b0 % 4 * 16 + b1 / 16, b1 % 16 * 4 + b2 / 64, b2 % 64];
    assert vs[1..][1..][1..][1..] == [];
    assert Chars(vs[1..][1..][1..]) == [Letter(vs[3])];
    assert Chars(vs[1..][1..]) == [Letter(vs[2]), Letter(vs[3])];
    assert Chars(vs[1..]) == [Letter(vs[1]), Letter(vs[2]), Letter(vs[3])];
  }

  /** The encoding, group by group, with the final short group padded. */
  function Encoding(src: seq<uint8>): (r: string)
    ensures |r| == EncodedSize(|src|)
  {
    EncodedSizeStep(|src|);
    if |src| == 0 then []
    else if |src| == 1 then Quad(src[0], 0, 0)[..2] + [Pad, Pad]
    else if |src| == 2 then Quad(src[0], src[1], 0)[..3] + [Pad]
    else Quad(src[0], src[1], src[2]) + Encoding(src[3..])
  }

  /** Byte k of src, or 0 past its end (the zeroed group buffer). */
  function At(src: seq<uint8>, k: nat): uint8
  {
    if k < |src| then src[k] else 0
  }

  /** What src is after dropping its first i bytes (nothing past the end). */
  function Drop(src: seq<uint8>, i: nat): (r: seq<uint8>)
    ensures |r| == if i <= |src| then |src| - i else 0
  {
    if i <= |src| then src[i..] else []
  }

  /** The group loop's output before padding: every group zero-filled. */
  function Unpadded(src: seq<uint8>): string
    decreases |src|
  {
    if |src| == 0 then []
    else Quad(At(src, 0), At(src, 1), At(src, 2)) + Unpadded(Drop(src, 3))
  }

  /** The group output has the length of the padded encoding. */
  lemma {:induction false} UnpaddedLength(src: seq<uint8>)
    ensures |Unpadded(src)| == EncodedSize(|src|)
    decreases |src|
  {
    EncodedSizeStep(|src|);
    if |src| > 0 {
      UnpaddedLength(Drop(src, 3));
    }
  }

  /** Number of padding characters for a length. */
  function Pads(n: nat): nat
  {
    if n % 3 == 1 then 2 else if n % 3 == 2 then 1 else 0
  }

  lemma PadsStep(n: nat)
    requires n >= 3
    ensures Pads(n) == Pads(n - 3)
  {
    assert n % 3 == (n - 3) % 3;
  }

  /** The padding overwrites the last Pads characters of the group output. */
  lemma {:induction false} UnpaddedThenPad(src: seq<uint8>)
    ensures |Unpadded(src)| == |Encoding(src)| >= Pads(|src|)
    ensures Encoding(src) == Unpadded(src)[..|Unpadded(src)| - Pads(|src|)] + seq(Pads(|src|), _ => Pad)
  {
    if |src| > 3 {
      UnpaddedThenPad(src[3..]);
      assert Drop(src, 3) == src[3..];
      PadsStep(|src|);
      DropTail(Quad(src[0], src[1], src[2]), Unpadded(src[3..]), Pads(|src|));
    } else {
      ShortThenPad(src);
    }
  }

  lemma DropTail<T>(q: seq<T>, u: seq<T>, p: nat)
    requires p <= |u|
    ensures (q + u)[..|q + u| - p] == q + u[..|u| - p]
  {
  }

  /** UnpaddedThenPad for inputs of at most one group. */
  lemma ShortThenPad(src: seq<uint8>)
    requires |src| <= 3
    ensures |Unpadded(src)| == |Encoding(src)| >= Pads(|src|)
    ensures Encoding(src) == Unpadded(src)[..|Unpadded(src)| - Pads(|src|)] + seq(Pads(|src|), _ => Pad)
  {
    if |src| > 0 {
      ShortUnpadded(src);
      if |src| == 3 {
        assert src[..3] == src;
        assert Encoding(src) == Quad(src[0], src[1], src[2]) + [];
      } else if |src| == 2 {
        TwoThenPad(src, Unpadded(src));
      } else {
        OneThenPad(src, Unpadded(src));
      }
    }
  }

  /** Up to three bytes are one group. */
  lemma ShortUnpadded(src: seq<uint8>)
    requires 0 < |src| <= 3
    ensures Unpadded(src) == Quad(src[0], At(src, 1), At(src, 2))
  {
    assert Drop(src, 3) == [];
  }

  lemma TwoThenPad(src: seq<uint8>, q: string)
    requires |src| == 2 && q == Quad(src[0], src[1], 0)
    ensures Encoding(src) == q[..|q| - 1] + seq(1, _ => Pad)
  {
    assert seq(1, _ => Pad) == [Pad];
  }

  lemma OneThenPad(src: seq<uint8>, q: string)
    requires |src| == 1 && q == Quad(src[0], 0, 0)
    ensures Encoding(src) == q[..|q| - 2] + seq(2, _ => Pad)
  {
    assert seq(2, _ => Pad) == [Pad, Pad];
  }


  /** Padding follows the input length: n mod 3 = 1 ends in "==", n mod 3 =
      2 ends in one '=', n mod 3 = 0 has none, and no '=' appears earlier. */
  lemma {:induction false} EncodingPadding(src: seq<uint8>)
    ensures forall k :: 0 <= k < |Encoding(src)| ==>
              (Encoding(src)[k] == Pad <==> k >= |Encoding(src)| - Pads(|src|))
    ensures forall k :: 0 <= k < |Encoding(src)| - Pads(|src|) ==> IsLetter(Encoding(src)[k])
  {
    if |src| >= 3 {
      EncodingPadding(src[3..]);
      PadsStep(|src|);
      QuadValues(src[0], src[1], src[2]);
      var q := Quad(src[0], src[1], src[2]);
      assert Encoding(src) == q + Encoding(src[3..]);
    } else if |src| == 2 {
      QuadValues(src[0], src[1], 0);
    } else if |src| == 1 {
      QuadValues(src[0], 0, 0);
    }
  }

  /** The loop bound of b64_encode: the length rounded up to whole groups. */
  method PaddedLength(size: nat) returns (lim: nat, ghost groups: nat)
    ensures size <= lim < size + 3 && lim == 3 * groups && EncodedSize(size) == 4 * groups
  {
    lim := size + (if size % 3 == 0 then 0 else 3 - size % 3);
    groups := lim / 3;
  }

  /** One group's four characters written at index at. */
  method WriteQuad(dest: array<char>, at: nat, b0: uint8, b1: uint8, b2: uint8)
    requires at + 4 <= dest.Length
    modifies dest
    ensures dest[..at + 4] == old(dest[..at]) + Quad(b0, b1, b2)
    ensures dest[at + 4..] == old(dest[at + 4..])
  {
    TableLetters();
    QuadChars(b0, b1, b2);
    dest[at + 0] := Table[b0 / 4];
    dest[at + 1] := Table[b0 % 4 * 16 + b1 / 16];
    dest[at + 2] := Table[b1 % 16 * 4 + b2 / 64];
    dest[at + 3] := Table[b2 % 64];
    assert dest[..at + 4] == old(dest[..at]) + Quad(b0, b1, b2);
  }

  lemma Regroup<T>(whole: seq<T>, done: seq<T>, next: seq<T>, rest: seq<T>, after: seq<T>)
    requires whole == done + rest && rest == next + after
    ensures whole == (done + next) + after
  {
  }

  /** b64_encode: writes the EncodedSize characters of the encoding into
      dest and a NUL after them; nothing else in dest changes. */
  method Encode(dest: array<char>, src: seq<uint8>)
    requires EncodedSize(|src|) < dest.Length
    modifies dest
    ensures dest[..EncodedSize(|src|)] == Encoding(src)
    ensures dest[EncodedSize(|src|)] == '\0'
    ensures dest[EncodedSize(|src|) + 1..] == old(dest[EncodedSize(|src|) + 1..])
  {
    var size := |src|;
    EncodeGroups(dest, src);
    var outSize := EncodedSize(size);
    UnpaddedThenPad(src);
    if size % 3 == 1 {
      dest[outSize - 2] := Pad;
      dest[outSize - 1] := Pad;
    } else if size % 3 == 2 {
      dest[outSize - 1] := Pad;
    }
    dest[outSize] := '\0';
  }

  /** Group c of the group output is the group of bytes 3c, 3c+1, 3c+2. */
  lemma {:induction false} UnpaddedGroup(src: seq<uint8>, c: nat)
    requires 3 * c < |src|
    ensures 4 * c + 4 <= |Unpadded(src)|
    ensures Unpadded(src)[4 * c..4 * c + 4] == Quad(At(src, 3 * c), At(src, 3 * c + 1), At(src, 3 * c + 2))
  {
    var q := Quad(At(src, 0), At(src, 1), At(src, 2));
    var rest := Drop(src, 3);
    assert Unpadded(src) == q + Unpadded(rest);
    if c > 0 {
      UnpaddedGroup(rest, c - 1);
      AtDrop(src, c);
      SliceAfter(q, Unpadded(rest), c);
    }
  }

  lemma AtDrop(src: seq<uint8>, c: nat)
    requires 0 < c && 3 * c < |src|
    ensures At(Drop(src, 3), 3 * (c - 1)) == At(src, 3 * c)
    ensures At(Drop(src, 3), 3 * (c - 1) + 1) == At(src, 3 * c + 1)
    ensures At(Drop(src, 3), 3 * (c - 1) + 2) == At(src, 3 * c + 2)
  {
  }

  lemma SliceAfter<T>(q: seq<T>, u: seq<T>, c: nat)
    requires |q| == 4 && 0 < c && 4 * c + 4 <= |q| + |u|
    ensures (q + u)[4 * c..4 * c + 4] == u[4 * (c - 1)..4 * (c - 1) + 4]
  {
  }

  /** The group loop of b64_encode: every group, the last one zero-filled. */
  method EncodeGroups(dest: array<char>, src: seq<uint8>)
    requires EncodedSize(|src|) <= dest.Length
    modifies dest
    ensures dest[..EncodedSize(|src|)] == Unpadded(src)
    ensures dest[EncodedSize(|src|)..] == old(dest[EncodedSize(|src|)..])
  {
    var lim, groups := PaddedLength(|src|);
    UnpaddedLength(src);
    EncodeLoop(dest, src, lim, groups, Unpadded(src));
  }

  /** The loop itself, over lim = 3 * groups input bytes, with whole the
      group output it writes. */
  method EncodeLoop(dest: array<char>, src: seq<uint8>, lim: nat, ghost groups: nat, ghost whole: string)
    requires |src| <= lim < |src| + 3 && lim == 3 * groups
    requires whole == Unpadded(src) && |whole| == 4 * groups <= dest.Length
    modifies dest
    ensures dest[..4 * groups] == whole
    ensures dest[4 * groups..] == old(dest[4 * groups..])
  {
    ghost var orig := dest[..];
    var i, chunk := 0, 0;
    while i < lim
      invariant i == 3 * chunk && chunk <= groups
      invariant dest[..4 * chunk] == whole[..4 * chunk]
      invariant dest[4 * chunk..] == orig[4 * chunk..]
    {
      EncodeNext(dest, src, i, chunk, whole, orig);
      i, chunk := i + 3, chunk + 1;
    }
  }

  /** One pass of the group loop: the group at byte i is written as the
      characters at 4 * chunk, which extends the finished prefix. */
  method EncodeNext(dest: array<char>, src: seq<uint8>, i: nat, chunk: nat, ghost whole: string, ghost orig: seq<char>)
    requires i == 3 * chunk && i < |src| && whole == Unpadded(src)
    requires 4 * chunk + 4 <= |whole| <= dest.Length == |orig|
    requires dest[..4 * chunk] == whole[..4 * chunk]
    requires dest[4 * chunk..] == orig[4 * chunk..]
    modifies dest
    ensures dest[..4 * chunk + 4] == whole[..4 * chunk + 4]
    ensures dest[4 * chunk + 4..] == orig[4 * chunk + 4..]
  {
    UnpaddedGroup(src, chunk);
    WriteQuad(dest, chunk * 4, At(src, i), At(src, i + 1), At(src, i + 2));
    assert whole[..4 * chunk + 4] == whole[..4 * chunk] + whole[4 * chunk..4 * chunk + 4];
    assert orig[4 * chunk + 4..] == orig[4 * chunk..][4..];
  }

  /** b64_encode_alloc: a buffer of EncodedSize + 1 characters holds the
      encoding and its NUL; a failed allocation (mallocOk false) gives
      null. */
  method EncodeAlloc(src: seq<uint8>, mallocOk: bool) returns (res: array?<char>)
    ensures res == null <==> !mallocOk
    ensures res != null ==>
              fresh(res) && res.Length == EncodedSize(|src|) + 1
              && res[..EncodedSize(|src|)] == Encoding(src) && res[EncodedSize(|src|)] == '\0'
  {
    if !mallocOk {
      return null;
    }
    res := new char[EncodedSize(|src|) + 1](_ => '\0');
    Encode(res, src);
  }

  /** The three bytes of a group of four six-bit values, each truncated to
      a byte as the uint8_t stores do. */
  function Byte0(d0: int, d1: int): uint8
    requires 0 <= d0 < 64 && 0 <= d1 < 64
  {
    (d0 * 4 + d1 / 16) % 0x100
  }

  function Byte1(d1: int, d2: int): uint8
    requires 0 <= d1 < 64 && 0 <= d2 < 64
  {
    (d1 * 16 + d2 / 4) % 0x100
  }

  function Byte2(d2: int, d3: int): uint8
    requires 0 <= d2 < 64 && 0 <= d3 < 64
  {
    (d2 * 64 + d3) % 0x100
  }

  /** The characters of a group the decoder turns into bytes are alphabet
      characters: the first two, the third unless it is '=', and the
      fourth unless the third or the fourth is '='. */
  predicate GroupReadable(q: string)
    requires |q| == 4
  {
    IsLetter(q[0]) && IsLetter(q[1])
    && (q[2] == Pad || (IsLetter(q[2]) && (q[3] == Pad || IsLetter(q[3]))))
  }

  /** A group with '=' in third or fourth place ends the decoding. */
  predicate Last(q: string)
    requires |q| == 4
  {
    q[2] == Pad || q[3] == Pad
  }

  /** The bytes of one group: one before "==" or "=x", two before a final
      '=', three otherwise. */
  function GroupBytes(q: string): (r: seq<uint8>)
    requires |q| == 4 && GroupReadable(q)
    ensures |r| == if q[2] == Pad then 1 else if q[3] == Pad then 2 else 3
  {
    var d0, d1 := Value(q[0]), Value(q[1]);
    if q[2] == Pad then [Byte0(d0, d1)]
    else
      var d2 := Value(q[2]);
      if q[3] == Pad then [Byte0(d0, d1), Byte1(d1, d2)]
      else [Byte0(d0, d1), Byte1(d1, d2), Byte2(d2, Value(q[3]))]
  }

  /** Every group the decoder reads is readable; reading stops after the
      first last group. */
  predicate Readable(s: string)
    requires |s| % 4 == 0
  {
    |s| == 0 || (GroupReadable(s[..4]) && (Last(s[..4]) || Readable(s[4..])))
  }

  /** The bytes b64_decode writes, group by group, up to and including the
      first last group. */
  function Decoding(s: string): seq<uint8>
    requires |s| % 4 == 0 && Readable(s)
  {
    if |s| == 0 then []
    else GroupBytes(s[..4]) + (if Last(s[..4]) then [] else Decoding(s[4..]))
  }

  function PadCount(c: char): nat
  {
    if c == Pad then 1 else 0
  }

  /** b64_decoded_size as corrected: the length check also sends the empty
      string to 0 instead of reading the two characters before it. Otherwise
      three bytes per group less the '=' among the last two characters. */
  function DecodedSize(s: string): (r: nat)
    ensures |s| % 4 != 0 || |s| == 0 ==> r == 0
    ensures |s| % 4 == 0 && |s| > 0 ==> |s| / 4 * 3 - 2 <= r <= |s| / 4 * 3
  {
    if |s| % 4 != 0 || |s| == 0 then 0
    else |s| / 4 * 3 - PadCount(s[|s| - 1]) - PadCount(s[|s| - 2])
  }

  /** b64_decoded_size as written. The two characters before the string are
      given as before: for the empty string the C code reads them (str[-1]
      and str[-2]), and the subtraction wraps modulo 2^64. */
  function DecodedSizeAsWritten(s: string, before: string): (r: int)
    requires |before| >= 2
    ensures 0 <= r < SizeModulus
    ensures |s| % 4 != 0 ==> r == 0
  {
    if |s| % 4 != 0 then 0
    else
      var mem := before + s;
      var at := |before| + |s|;
      (|s| / 4 * 3 - PadCount(mem[at - 1]) - PadCount(mem[at - 2])) % SizeModulus
  }

  /** The two agree on every string but the empty one (whose length, as a
      size_t, is below 2^64). */
  lemma DecodedSizeAgrees(s: string, before: string)
    requires |before| >= 2 && 0 < |s| < SizeModulus
    ensures DecodedSizeAsWritten(s, before) == DecodedSize(s)
  {
    if |s| % 4 == 0 {
      var mem := before + s;
      assert mem[|before| + |s| - 1] == s[|s| - 1];
      assert mem[|before| + |s| - 2] == s[|s| - 2];
    }
  }

  /** On the empty string the result as written depends on the memory in
      front of it: with "==" there it is 2^64 - 2, not 0, although decoding
      the empty string writes nothing. */
  lemma EmptyDecodedSizeAsWritten()
    ensures DecodedSizeAsWritten("", "AA") == 0
    ensures DecodedSizeAsWritten("", "==") == SizeModulus - 2
    ensures DecodedSize("") == 0 && Decoding("") == []
  {
    assert ("==" + "")[1] == Pad && ("==" + "")[0] == Pad;
    assert ("AA" + "")[1] != Pad && ("AA" + "")[0] != Pad;
  }

  /** The decoder never writes more than DecodedSize bytes, so the buffer
      b64_decode_alloc allocates is large enough. */
  lemma {:induction false} DecodingFits(s: string)
    requires |s| % 4 == 0 && |s| > 0 && Readable(s)
    ensures |Decoding(s)| <= DecodedSize(s)
  {
    if s[2] != Pad && s[3] != Pad && |s| > 4 {
      DecodingFits(s[4..]);
      assert s[4..][|s| - 5] == s[|s| - 1] && s[4..][|s| - 6] == s[|s| - 2];
    }
  }

  lemma DivMod(x: int, k: int)
    requires 0 <= x && 0 < k
    ensures x == x / k * k + x % k && 0 <= x % k < k
  {
  }

  lemma MulLe(a: int, b: int, k: int)
    requires 0 <= a <= b && 0 < k
    ensures a * k <= b * k && (a + 1) * k == a * k + k
  {
  }

  /** (hi * k + lo) / k == hi and % k == lo when 0 <= lo < k. */
  lemma Split(hi: int, lo: int, k: int)
    requires 0 <= hi && 0 <= lo < k
    ensures (hi * k + lo) / k == hi && (hi * k + lo) % k == lo
  {
    var x := hi * k + lo;
    DivMod(x, k);
    var q := x / k;
    if q > hi {
      MulLe(hi + 1, q, k);
      assert false;
    } else if q < hi {
      MulLe(q + 1, hi, k);
      assert false;
    }
  }

  lemma GroupRoundTrip(b0: uint8, b1: uint8, b2: uint8)
    ensures Byte0(b0 / 4, b0 % 4 * 16 + b1 / 16) == b0
    ensures Byte1(b0 % 4 * 16 + b1 / 16, b1 % 16 * 4 + b2 / 64) == b1
    ensures Byte2(b1 % 16 * 4 + b2 / 64, b2 % 64) == b2
  {
    DivMod(b0, 4);
    DivMod(b1, 16);
    DivMod(b2, 64);
    var m0, q1, m1, q2 := b0 % 4, b1 / 16, b1 % 16, b2 / 64;
    Split(m0, q1, 16);
    Split(m1, q2, 4);
    assert (m0 * 16 + q1) * 16 + m1 == m0 * 256 + b1;
    Split(m0, b1, 256);
    assert (m1 * 4 + q2) * 64 + b2 % 64 == m1 * 256 + b2;
    Split(m1, b2, 256);
  }

  /** The characters of a group decode to their six-bit values. */
  lemma QuadValues(b0: uint8, b1: uint8, b2: uint8)
    ensures |Quad(b0, b1, b2)| == 4 && forall k :: 0 <= k < 4 ==> IsLetter(Quad(b0, b1, b2)[k])
    ensures Value(Quad(b0, b1, b2)[0]) == b0 / 4
    ensures Value(Quad(b0, b1, b2)[1]) == b0 % 4 * 16 + b1 / 16
    ensures Value(Quad(b0, b1, b2)[2]) == b1 % 16 * 4 + b2 / 64
    ensures Value(Quad(b0, b1, b2)[3]) == b2 % 64
  {
    QuadChars(b0, b1, b2);
    LetterValue(b0 / 4);
    LetterValue(b0 % 4 * 16 + b1 / 16);
    LetterValue(b1 % 16 * 4 + b2 / 64);
    LetterValue(b2 % 64);
  }

  /** A group of four alphabet characters, followed by more groups. */
  lemma ThreeOf(s: string)
    requires |s| >= 4 && |s| % 4 == 0 && forall k :: 0 <= k < 4 ==> IsLetter(s[k])
    requires Readable(s[4..])
    ensures Readable(s) && !Last(s[..4])
    ensures Decoding(s) == [Byte0(Value(s[0]), Value(s[1])), Byte1(Value(s[1]), Value(s[2])),
                            Byte2(Value(s[2]), Value(s[3]))] + Decoding(s[4..])
  {
  }

  /** A final group "xy z=". */
  lemma TwoOf(s: string)
    requires |s| == 4 && IsLetter(s[0]) && IsLetter(s[1]) && IsLetter(s[2]) && s[3] == Pad
    ensures Readable(s) && Decoding(s) == [Byte0(Value(s[0]), Value(s[1])), Byte1(Value(s[1]), Value(s[2]))]
  {
    assert s[..4] == s;
  }

  /** A final group "xy==". */
  lemma OneOf(s: string)
    requires |s| == 4 && IsLetter(s[0]) && IsLetter(s[1]) && s[2] == Pad && s[3] == Pad
    ensures Readable(s) && Decoding(s) == [Byte0(Value(s[0]), Value(s[1]))]
  {
    assert s[..4] == s;
  }

  lemma FullGroup(b0: uint8, b1: uint8, b2: uint8, rest: string)
    requires |rest| % 4 == 0 && Readable(rest)
    ensures |Quad(b0, b1, b2) + rest| % 4 == 0 && Readable(Quad(b0, b1, b2) + rest)
    ensures Decoding(Quad(b0, b1, b2) + rest) == [b0, b1, b2] + Decoding(rest)
  {
    var q := Quad(b0, b1, b2);
    var s := q + rest;
    QuadValues(b0, b1, b2);
    assert s[4..] == rest;
    assert forall k :: 0 <= k < 4 ==> s[k] == q[k];
    ThreeOf(s);
    GroupRoundTrip(b0, b1, b2);
  }

  lemma TwoBytes(b0: uint8, b1: uint8)
    ensures Readable(Quad(b0, b1, 0)[..3] + [Pad])
    ensures Decoding(Quad(b0, b1, 0)[..3] + [Pad]) == [b0, b1]
  {
    var q := Quad(b0, b1, 0);
    var s := q[..3] + [Pad];
    QuadValues(b0, b1, 0);
    assert s[0] == q[0] && s[1] == q[1] && s[2] == q[2];
    TwoOfValues(s, b0, b1);
  }

  lemma TwoOfValues(s: string, b0: uint8, b1: uint8)
    requires |s| == 4 && IsLetter(s[0]) && IsLetter(s[1]) && IsLetter(s[2]) && s[3] == Pad
    requires Value(s[0]) == b0 / 4 && Value(s[1]) == b0 % 4 * 16 + b1 / 16 && Value(s[2]) == b1 % 16 * 4 + 0 / 64
    ensures Readable(s) && Decoding(s) == [b0, b1]
  {
    TwoOf(s);
    GroupRoundTrip(b0, b1, 0);
  }

  lemma OneByte(b0: uint8)
    ensures Readable(Quad(b0, 0, 0)[..2] + [Pad, Pad])
    ensures Decoding(Quad(b0, 0, 0)[..2] + [Pad, Pad]) == [b0]
  {
    var q := Quad(b0, 0, 0);
    var s := q[..2] + [Pad, Pad];
    QuadValues(b0, 0, 0);
    assert s[0] == q[0] && s[1] == q[1];
    OneOfValues(s, b0);
  }

  lemma OneOfValues(s: string, b0: uint8)
    requires |s| == 4 && IsLetter(s[0]) && IsLetter(s[1]) && s[2] == Pad && s[3] == Pad
    requires Value(s[0]) == b0 / 4 && Value(s[1]) == b0 % 4 * 16 + 0 / 16
    ensures Readable(s) && Decoding(s) == [b0]
  {
    OneOf(s);
    GroupRoundTrip(b0, 0, 0);
  }

  /** Decoding the encoding of any bytes gives them back, and the encoding
      is readable. */
  lemma {:induction false} RoundTrip(src: seq<uint8>)
    ensures |Encoding(src)| % 4 == 0 && Readable(Encoding(src))
    ensures Decoding(Encoding(src)) == src
  {
    EncodedSizeCeiling(|src|);
    if |src| >= 3 {
      RoundTrip(src[3..]);
      FullGroup(src[0], src[1], src[2], Encoding(src[3..]));
      assert src == [src[0], src[1], src[2]] + src[3..];
    } else if |src| == 2 {
      TwoBytes(src[0], src[1]);
      assert src == [src[0], src[1]];
    } else if |src| == 1 {
      OneByte(src[0]);
      assert src == [src[0]];
    }
  }

  /** Three bytes per group of four characters, less the padding, is the
      byte count. */
  lemma {:induction false} GroupsLessPads(n: nat)
    ensures EncodedSize(n) / 4 * 3 - Pads(n) == n
  {
    EncodedSizeStep(n);
    if n >= 3 {
      GroupsLessPads(n - 3);
      assert Pads(n) == Pads(n - 3);
      assert EncodedSize(n) / 4 == EncodedSize(n - 3) / 4 + 1;
    }
  }

  /** The decoded size of the encoding of n > 0 bytes is n. */
  lemma DecodedSizeOfEncoding(src: seq<uint8>)
    requires |src| > 0
    ensures DecodedSize(Encoding(src)) == |src|
    ensures |Encoding(src)| % 4 == 0 && Readable(Encoding(src))
            && |Decoding(Encoding(src))| == DecodedSize(Encoding(src))
  {
    var s := Encoding(src);
    var n, e := |src|, |s|;
    EncodedSizeCeiling(n);
    EncodingPadding(src);
    GroupsLessPads(n);
    assert e % 4 == 0 && e >= 4;
    assert PadCount(s[e - 1]) + PadCount(s[e - 2]) == Pads(n);
    RoundTrip(src);
  }

  /** The body of the decoding loop: the bytes of group q written at index
      at; the result says whether this was the last group (the C loop
      breaks out there). */
  method DecodeGroup(dest: array<uint8>, at: nat, q: string) returns (last: bool)
    requires |q| == 4 && GroupReadable(q) && at + |GroupBytes(q)| <= dest.Length
    modifies dest
    ensures last == Last(q)
    ensures dest[..at] == old(dest[..at]) && dest[at..at + |GroupBytes(q)|] == GroupBytes(q)
    ensures dest[at + |GroupBytes(q)|..] == old(dest[at + |GroupBytes(q)|..])
  {
    var d0 := Lookup(q[0]);
    var d1 := Lookup(q[1]);
    var d2 := Lookup(q[2]);
    var d3 := Lookup(q[3]);
    dest[at + 0] := Byte0(d0, d1);
    if q[2] == Pad {
      return true;
    }
    dest[at + 1] := Byte1(d1, d2);
    if q[3] == Pad {
      return true;
    }
    dest[at + 2] := Byte2(d2, d3);
    return false;
  }

  /** b64_decode: false exactly when the length is not a multiple of four,
      and then dest is untouched; otherwise dest starts with Decoding(src)
      and no byte after it changes. */
  method Decode(dest: array<uint8>, src: string) returns (ok: bool)
    requires |src| % 4 == 0 ==> Readable(src) && |Decoding(src)| <= dest.Length
    modifies dest
    ensures ok <==> |src| % 4 == 0
    ensures !ok ==> dest[..] == old(dest[..])
    ensures ok ==> dest[..|Decoding(src)|] == Decoding(src)
                   && dest[|Decoding(src)|..] == old(dest[|Decoding(src)|..])
  {
    var inSize := |src|;
    if inSize % 4 != 0 {
      return false;
    }
    DecodeGroups(dest, src);
    return true;
  }

  /** Readable and Decoding read from index i of s on, which is how the
      decoder's loop walks the string. */
  predicate ReadableFrom(s: string, i: nat)
    requires i <= |s|
    decreases |s| - i
  {
    i == |s| || (i + 4 <= |s| && GroupReadable(s[i..i + 4]) && (Last(s[i..i + 4]) || ReadableFrom(s, i + 4)))
  }

  function DecodingFrom(s: string, i: nat): seq<uint8>
    requires i <= |s| && ReadableFrom(s, i)
    decreases |s| - i
  {
    if i == |s| then []
    else GroupBytes(s[i..i + 4]) + (if Last(s[i..i + 4]) then [] else DecodingFrom(s, i + 4))
  }

  lemma {:induction false} DecodingFromDrop(s: string, i: nat)
    requires |s| % 4 == 0 && i % 4 == 0 && i <= |s| && Readable(s[i..])
    ensures ReadableFrom(s, i) && DecodingFrom(s, i) == Decoding(s[i..])
    decreases |s| - i
  {
    if i < |s| {
      var r := s[i..];
      assert r[..4] == s[i..i + 4];
      assert r[4..] == s[i + 4..];
      if !Last(r[..4]) {
        DecodingFromDrop(s, i + 4);
      }
    }
  }

  /** The state of the group loop at index i of src (group chunk): out
      holds every byte written so far and nothing of orig past whole has
      changed. */
  ghost predicate Going(src: string, i: nat, chunk: nat, out: seq<uint8>, orig: seq<uint8>, whole: seq<uint8>)
  {
    i == 4 * chunk && i <= |src| && ReadableFrom(src, i)
    && 3 * chunk + |DecodingFrom(src, i)| == |whole| <= |out| == |orig|
    && whole == out[..3 * chunk] + DecodingFrom(src, i)
    && out[|whole|..] == orig[|whole|..]
  }

  /** The state after the loop: whole written, nothing after it changed. */
  ghost predicate Done(out: seq<uint8>, orig: seq<uint8>, whole: seq<uint8>)
  {
    |whole| <= |out| == |orig| && out[..|whole|] == whole && out[|whole|..] == orig[|whole|..]
  }

  /** The group loop of b64_decode. */
  method DecodeGroups(dest: array<uint8>, src: string)
    requires |src| % 4 == 0 && Readable(src) && |Decoding(src)| <= dest.Length
    modifies dest
    ensures dest[..|Decoding(src)|] == Decoding(src)
    ensures dest[|Decoding(src)|..] == old(dest[|Decoding(src)|..])
  {
    var inSize := |src|;
    ghost var whole := Decoding(src);
    ghost var orig := dest[..];
    assert src[0..] == src;
    DecodingFromDrop(src, 0);
    var i, chunk := 0, 0;
    while i < inSize
      invariant Going(src, i, chunk, dest[..], orig, whole)
    {
      var last := DecodeNext(dest, src, i, chunk, whole, orig);
      if last {
        break;
      }
      i, chunk := i + 4, chunk + 1;
    }
    if i == inSize {
      DoneAtEnd(src, i, chunk, dest[..], orig, whole);
    }
  }

  lemma DoneAtEnd(src: string, i: nat, chunk: nat, out: seq<uint8>, orig: seq<uint8>, whole: seq<uint8>)
    requires Going(src, i, chunk, out, orig, whole) && i == |src|
    ensures Done(out, orig, whole)
  {
  }

  /** One turn of the group loop: the group at i written after the bytes
      so far, and then either the last group was read or the loop goes on
      at i + 4. */
  method DecodeNext(dest: array<uint8>, src: string, i: nat, chunk: nat, ghost whole: seq<uint8>, ghost orig: seq<uint8>)
    returns (last: bool)
    requires i < |src| && Going(src, i, chunk, dest[..], orig, whole)
    modifies dest
    ensures if last then Done(dest[..], orig, whole) else Going(src, i + 4, chunk + 1, dest[..], orig, whole)
  {
    ghost var after := FromStep(src, i, chunk, dest[..], orig, whole);
    var at, q := 3 * chunk, src[i..i + 4];
    last := WriteGroup(dest, at, q, whole, after);
    if last {
      DoneAfter(src, i, at, q, dest[..], orig, whole, after);
    } else {
      GoingAfter(src, i, chunk, at, q, dest[..], orig, whole, after);
    }
  }

  /** The group at i and what the groups after it decode to. */
  lemma FromStep(src: string, i: nat, chunk: nat, out: seq<uint8>, orig: seq<uint8>, whole: seq<uint8>)
    returns (after: seq<uint8>)
    requires i < |src| && Going(src, i, chunk, out, orig, whole)
    ensures i + 4 <= |src| && GroupReadable(src[i..i + 4])
    ensures 3 * chunk + |GroupBytes(src[i..i + 4])| + |after| == |whole| <= |out| == |orig|
    ensures whole == out[..3 * chunk] + (GroupBytes(src[i..i + 4]) + after)
    ensures out[|whole|..] == orig[|whole|..]
    ensures Last(src[i..i + 4]) ==> after == []
    ensures !Last(src[i..i + 4]) ==> ReadableFrom(src, i + 4) && after == DecodingFrom(src, i + 4)
  {
    after := if Last(src[i..i + 4]) then [] else DecodingFrom(src, i + 4);
  }

  lemma DoneAfter(src: string, i: nat, at: nat, q: string, out: seq<uint8>, orig: seq<uint8>, whole: seq<uint8>, after: seq<uint8>)
    requires |q| == 4 && GroupReadable(q) && Last(q)
    requires at + |GroupBytes(q)| <= |whole| <= |out| == |orig|
    requires whole == out[..at + |GroupBytes(q)|] + after && after == []
    requires out[|whole|..] == orig[|whole|..]
    ensures Done(out, orig, whole)
  {
    assert out[..|whole|] == whole;
  }

  lemma GoingAfter(src: string, i: nat, chunk: nat, at: nat, q: string, out: seq<uint8>, orig: seq<uint8>, whole: seq<uint8>, after: seq<uint8>)
    requires i == 4 * chunk && i + 4 <= |src| && at == 3 * chunk && q == src[i..i + 4]
    requires GroupReadable(q) && !Last(q) && ReadableFrom(src, i + 4)
    requires at + |GroupBytes(q)| <= |whole| <= |out| == |orig|
    requires whole == out[..at + |GroupBytes(q)|] + after && after == DecodingFrom(src, i + 4)
    requires out[|whole|..] == orig[|whole|..]
    ensures Going(src, i + 4, chunk + 1, out, orig, whole)
  {
    FullBytes(q);
  }

  lemma FullBytes(q: string)
    requires |q| == 4 && GroupReadable(q) && !Last(q)
    ensures |GroupBytes(q)| == 3
  {
  }

  /** DecodeGroup seen from the whole output: with whole the bytes before
      at, then those of q, then after, the bytes of q extend the prefix. */
  method WriteGroup(dest: array<uint8>, at: nat, q: string, ghost whole: seq<uint8>, ghost after: seq<uint8>)
    returns (last: bool)
    requires |q| == 4 && GroupReadable(q) && at + |GroupBytes(q)| + |after| == |whole| <= dest.Length
    requires whole == dest[..at] + (GroupBytes(q) + after)
    modifies dest
    ensures last == Last(q)
    ensures whole == dest[..at + |GroupBytes(q)|] + after
    ensures dest[|whole|..] == old(dest[|whole|..])
  {
    ghost var done := dest[..at];
    ghost var bytes := GroupBytes(q);
    last := DecodeGroup(dest, at, q);
    assert dest[..at + |bytes|] == done + bytes;
    Regroup(whole, done, bytes, bytes + after, after);
  }

  /** b64_decode_alloc: the size is DecodedSize(src); a zero size or a
      failed allocation (mallocOk false) gives null; otherwise a buffer
      of that size holding the decoded bytes. The branch for a failing
      b64_decode cannot be taken: a nonzero size means a length that is a
      multiple of four. */
  method DecodeAlloc(src: string, mallocOk: bool) returns (res: array?<uint8>, size: nat)
    requires |src| % 4 == 0 ==> Readable(src)
    ensures size == DecodedSize(src)
    ensures res == null <==> size == 0 || !mallocOk
    ensures res != null ==>
              fresh(res) && res.Length == size && |Decoding(src)| <= size
              && res[..|Decoding(src)|] == Decoding(src)
  {
    size := DecodedSize(src);
    if size == 0 {
      return null, size;
    }
    if !mallocOk {
      return null, size;
    }
    DecodingFits(src);
    res := new uint8[size](_ => 0);
    var ok := Decode(res, src);
    if !ok {
      return null, size;
    }
  }
}
