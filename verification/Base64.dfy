/**
  Base64 (section 4 of RFC 4648): the encoder, and the decoder that may work in place.
 */
module Base64 {
  import opened Buckets

  const EQUALS: byte := 0x3d

  predicate Ends(c: byte) { c == 0 || c == EQUALS }

  /** A number of six bits. */
  type sextet = x: int | 0 <= x < 64

  /** The encoding table: A-Z, a-z, 0-9, + and /. */
  function Char(v: sextet): byte {
    if v < 26 then v + 65
    else if v < 52 then v - 26 + 97
    else if v < 62 then v - 52 + 48
    else if v == 62 then 43
    else 47
  }

  /** The value of a character; those outside the alphabet keep the zero of static storage. */
  function Value(c: byte): sextet {
    if 65 <= c <= 90 then c - 65
    else if 97 <= c <= 122 then c - 97 + 26
    else if 48 <= c <= 57 then c - 48 + 52
    else if c == 43 then 62
    else if c == 47 then 63
    else 0
  }

  lemma ValueOfChar(v: sextet)
    ensures Value(Char(v)) == v && !Ends(Char(v)) && Char(v) < 128
  {}

  // ---------------------------------------------------------------- the text of some bytes

  function First(a: byte): sextet { a / 4 }

  function Second(a: byte, b: byte): sextet { a % 4 * 16 + b / 16 }

  function Third(b: byte, c: byte): sextet { b % 16 * 4 + c / 64 }

  function Fourth(c: byte): sextet { c % 64 }

  /** Three bytes as four characters; a partial last group as two or three. */
  function Encode(bytes: seq<byte>): (text: seq<byte>)
    decreases |bytes|
  {
    if |bytes| == 0 then []
    else if |bytes| == 1 then [Char(First(bytes[0])), Char(Second(bytes[0], 0))]
    else if |bytes| == 2 then [Char(First(bytes[0])), Char(Second(bytes[0], bytes[1])), Char(Third(bytes[1], 0))]
    else Group(bytes[0], bytes[1], bytes[2]) + Encode(bytes[3..])
  }

  function Group(a: byte, b: byte, c: byte): seq<byte> {
    [Char(First(a)), Char(Second(a, b)), Char(Third(b, c)), Char(Fourth(c))]
  }

  function TrailingCount(len: nat): nat { (3 - len % 3) % 3 }

  function Padding(len: nat, trail: bool): seq<byte> {
    if trail then seq(TrailingCount(len), _ => EQUALS) else []
  }

  /** BASE64_ENCODE_SIZE */
  function EncodeSize(len: nat): nat { 4 * (len / 3) + 6 }

  // ---------------------------------------------------------------- the bytes of a text

  /** The characters before the end of the string or the first padding character. */
  function Text(s: seq<byte>): (text: seq<byte>)
    ensures |text| <= |s| && text == s[..|text|] && (|text| < |s| ==> Ends(s[|text|]))
    ensures forall i :: 0 <= i < |text| ==> !Ends(text[i])
    decreases |s|
  {
    if s == [] || Ends(s[0]) then [] else [s[0]] + Text(s[1..])
  }

  function High(x: sextet, y: sextet): byte { x * 4 + y / 16 }

  function Middle(y: sextet, z: sextet): byte { y % 16 * 16 + z / 4 }

  function Low(z: sextet, w: sextet): byte { z % 4 * 64 + w }

  /** Four characters give three bytes; two or three left over give the bits of an unfinished byte as well. */
  function Decode(text: seq<byte>): (bytes: seq<byte>)
    decreases |text|
  {
    if |text| == 0 then []
    else
      var x := Value(text[0]);
      if |text| == 1 then [High(x, 0)]
      else
        var y := Value(text[1]);
        if |text| == 2 then [High(x, y), Middle(y, 0)]
        else
          var z := Value(text[2]);
          if |text| == 3 then [High(x, y), Middle(y, z), Low(z, 0)]
          else [High(x, y), Middle(y, z), Low(z, Value(text[3]))] + Decode(text[4..])
  }

  /** The alphabet of section 4 of RFC 4648: upper-case letters, lower-case letters, digits, plus and slash stand for
      0 to 63 in that order, and every other byte is read as 0. */
  lemma AlphabetIsStandard(c: byte)
    ensures Value(c) ==
            if 'A' as int <= c <= 'Z' as int then c - 'A' as int
            else if 'a' as int <= c <= 'z' as int then 26 + c - 'a' as int
            else if '0' as int <= c <= '9' as int then 52 + c - '0' as int
            else if c == '+' as int then 62 else if c == '/' as int then 63 else 0
    ensures Char(Value(c)) == c || (Value(c) == 0 && Char(0) == 'A' as int)
  {}

  /** The padding is at most two equals signs: none after whole groups of three bytes, one after two bytes more. */
  lemma PaddingIsStandard(len: nat)
    ensures Padding(len, false) == []
    ensures Padding(len, true) ==
            if len % 3 == 0 then [] else if len % 3 == 1 then Ascii("==") else Ascii("=")
  {}

  function Ascii(text: string): seq<byte>
    requires forall i :: 0 <= i < |text| ==> text[i] < 128 as char
  {
    seq(|text|, i requires 0 <= i < |text| => text[i] as byte)
  }

  /** The last two vectors of section 10 of RFC 4648, the first without its padding. */
  lemma TestVectors()
    ensures Encode(Ascii("fooba")) == Ascii("Zm9vYmE") && Encode(Ascii("foobar")) == Ascii("Zm9vYmFy")
  {
    assert Ascii("fooba")[3..] == [98, 97] && Ascii("foobar")[3..] == [98, 97, 114] && [98, 97, 114][3..] == [];
    assert Encode([98, 97]) == Ascii("YmE") && Encode([98, 97, 114]) == Ascii("YmFy");
  }

  // ---------------------------------------------------------------- the encoding is RFC 4648's

  /** The four values are the digits in base 64 of the 24-bit number whose digits in base 256 are the bytes. */
  lemma GroupIsDigits(a: byte, b: byte, c: byte)
    ensures ((First(a) * 64 + Second(a, b)) * 64 + Third(b, c)) * 64 + Fourth(c) == ((a as nat) * 256 + b) * 256 + c
  {}

  /** Decoding one group of values undoes the split of its bytes. */
  lemma GroupInverts(a: byte, b: byte, c: byte)
    ensures High(First(a), Second(a, b)) == a
    ensures Middle(Second(a, b), Third(b, c)) == b
    ensures Low(Third(b, c), Fourth(c)) == c
    ensures Middle(Second(a, 0), 0) == 0 && Low(Third(b, 0), 0) == 0
    ensures Middle(Second(a, b), Third(b, 0)) == b
  {}

  lemma {:induction false} EncodedLength(bytes: seq<byte>)
    ensures |Encode(bytes)| == 4 * (|bytes| / 3) + if |bytes| % 3 == 0 then 0 else |bytes| % 3 + 1
    decreases |bytes|
  {
    hide Char, First, Second, Third;
    if |bytes| >= 3 { EncodedLength(bytes[3..]); }
  }

  /** A padded text is made of whole groups, and every text fits its buffer with the terminator. */
  lemma EncodedSize(bytes: seq<byte>, trail: bool)
    ensures |Encode(bytes) + Padding(|bytes|, trail)| + 1 <= EncodeSize(|bytes|)
    ensures trail ==> |Encode(bytes) + Padding(|bytes|, trail)| == (|bytes| + 2) / 3 * 4
  {
    hide Encode;
    EncodedLength(bytes);
  }

  lemma {:induction false} EncodedIsText(bytes: seq<byte>)
    ensures forall i :: 0 <= i < |Encode(bytes)| ==> !Ends(Encode(bytes)[i]) && Encode(bytes)[i] < 128
    decreases |bytes|
  {
    if |bytes| >= 3 { EncodedIsText(bytes[3..]); }
  }

  lemma {:induction false} TextEnds(text: seq<byte>, rest: seq<byte>)
    requires (forall i :: 0 <= i < |text| ==> !Ends(text[i])) && rest != [] && Ends(rest[0])
    ensures Text(text + rest) == text
    decreases |text|
  {
    if text == [] {
      assert text + rest == rest;
    } else {
      assert (text + rest)[0] == text[0] && (text + rest)[1..] == text[1..] + rest;
      TextEnds(text[1..], rest);
    }
  }

  /** The zero byte that a partial final group leaves behind the original bytes. */
  function Extra(len: nat): seq<byte> { if len % 3 == 0 then [] else [0] }

  lemma {:induction false} DecodeEncode(bytes: seq<byte>)
    ensures Decode(Encode(bytes)) == bytes + Extra(|bytes|)
    decreases |bytes|
  {
    hide Char, Value, First, Second, Third, Fourth, High, Middle, Low;
    if |bytes| >= 3 {
      var a, b, c := bytes[0], bytes[1], bytes[2];
      DecodeGroup(a, b, c, Encode(bytes[3..]));
      DecodeEncode(bytes[3..]);
      assert bytes == [a, b, c] + bytes[3..];
    } else if |bytes| == 2 {
      ValueOfChar(First(bytes[0]));
      ValueOfChar(Second(bytes[0], bytes[1]));
      ValueOfChar(Third(bytes[1], 0));
      GroupInverts(bytes[0], bytes[1], 0);
    } else if |bytes| == 1 {
      ValueOfChar(First(bytes[0]));
      ValueOfChar(Second(bytes[0], 0));
      GroupInverts(bytes[0], 0, 0);
    }
  }

  lemma DecodeGroup(a: byte, b: byte, c: byte, more: seq<byte>)
    ensures Decode(Group(a, b, c) + more) == [a, b, c] + Decode(more)
  {
    hide Char, Value, First, Second, Third, Fourth, High, Middle, Low;
    var text := Group(a, b, c) + more;
    assert text[4..] == more;
    ValueOfChar(First(a));
    ValueOfChar(Second(a, b));
    ValueOfChar(Third(b, c));
    ValueOfChar(Fourth(c));
    GroupInverts(a, b, c);
  }

  /**
    Decoding an encoding, padded or not and whatever follows its terminator: the original bytes, and one zero
    more exactly when their number is not a multiple of three.
   */
  lemma DecodingInvertsEncoding(bytes: seq<byte>, trail: bool, rest: seq<byte>)
    ensures Decode(Text(Encode(bytes) + Padding(|bytes|, trail) + [0] + rest)) == bytes + Extra(|bytes|)
  {
    EncodedIsText(bytes);
    var after := Padding(|bytes|, trail) + [0] + rest;
    assert Encode(bytes) + Padding(|bytes|, trail) + [0] + rest == Encode(bytes) + after;
    TextEnds(Encode(bytes), after);
    DecodeEncode(bytes);
  }

  // ---------------------------------------------------------------- the loops

  lemma EncodeStep(d: seq<byte>, i: nat)
    requires i + 2 < |d|
    ensures Encode(d[i..]) == Group(d[i], d[i + 1], d[i + 2]) + Encode(d[i + 3..])
  {
    assert d[i..][3..] == d[i + 3..];
  }

  /** Four characters for three bytes. */
  method PutGroup(out: array<byte>, at: nat, a: byte, b: byte, c: byte) returns (next: nat)
    requires at + 4 <= out.Length
    modifies out
    ensures next == at + 4 && out[..next] == old(out[..at]) + Group(a, b, c)
    ensures forall i :: next <= i < out.Length ==> out[i] == old(out[i])
  {
    out[at] := Char(First(a));
    out[at + 1] := Char(Second(a, b));
    out[at + 2] := Char(Third(b, c));
    out[at + 3] := Char(Fourth(c));
    next := at + 4;
  }

  /** What is left after the last whole group. */
  method PutLast(src: array<byte>, inIter: nat, len: nat, out: array<byte>, at: nat) returns (next: nat)
    requires inIter <= len <= src.Length && len < inIter + 3 && src != out && at + 3 <= out.Length
    modifies out
    ensures at <= next <= at + 3 && out[..next] == old(out[..at]) + Encode(src[inIter..len])
    ensures forall i :: next <= i < out.Length ==> out[i] == old(out[i])
  {
    next := at;
    if inIter < len {
      out[next] := Char(First(src[inIter]));
      next := next + 1;
      if inIter + 1 < len {
        out[next] := Char(Second(src[inIter], src[inIter + 1]));
        out[next + 1] := Char(Third(src[inIter + 1], 0));
        next := next + 2;
      } else {
        out[next] := Char(Second(src[inIter], 0));
        next := next + 1;
      }
    }
  }

  method PutPadding(out: array<byte>, at: nat, len: nat, trail: bool) returns (next: nat)
    requires at + |Padding(len, trail)| <= out.Length
    modifies out
    ensures next == at + |Padding(len, trail)| && out[..next] == old(out[..at]) + Padding(len, trail)
    ensures forall i :: next <= i < out.Length ==> out[i] == old(out[i])
  {
    next := at;
    if trail {
      for i := 0 to TrailingCount(len)
        invariant next == at + i && out[..next] == old(out[..at]) + seq(i, _ => EQUALS)
        invariant forall k :: next <= k < out.Length ==> out[k] == old(out[k])
      {
        out[next] := EQUALS;
        next := next + 1;
      }
    }
  }

  /** base64_encode: the text, its padding and a terminator; the returned length leaves the terminator out. */
  method EncodeInto(src: array<byte>, len: nat, out: array<byte>, trail: bool) returns (outIter: nat)
    requires len <= src.Length && src != out && out.Length >= EncodeSize(len)
    modifies out
    ensures outIter < out.Length && out[outIter] == 0
    ensures out[..outIter] == Encode(src[..len]) + Padding(len, trail)
    ensures forall i :: outIter < i < out.Length ==> out[i] == old(out[i])
  {
    hide Encode, Char, Padding, Group;
    ghost var bytes := src[..len];
    EncodedSize(bytes, trail);
    var inIter := 0;
    outIter := 0;
    assert bytes[0..] == bytes;
    while inIter + 2 < len
      invariant inIter <= len && inIter % 3 == 0 && outIter == inIter / 3 * 4
      invariant out[..outIter] + Encode(bytes[inIter..]) == Encode(bytes)
      invariant forall i :: outIter <= i < out.Length ==> out[i] == old(out[i])
    {
      EncodeStep(bytes, inIter);
      outIter := PutGroup(out, outIter, src[inIter], src[inIter + 1], src[inIter + 2]);
      inIter := inIter + 3;
    }
    assert src[inIter..len] == bytes[inIter..];
    outIter := PutLast(src, inIter, len, out, outIter);
    assert out[..outIter] == Encode(bytes);
    outIter := PutPadding(out, outIter, len, trail);
    out[outIter] := 0;
  }

  lemma DecodeStep(t: seq<byte>, i: nat, j: nat)
    requires i <= j <= |t| && (j == i + 4 || (j == |t| && j < i + 4))
    ensures Decode(t[i..]) == Decode(t[i..j]) + Decode(t[j..])
  {
    if j == i + 4 {
      assert t[i..][4..] == t[j..];
      assert t[i..j][4..] == [];
    } else {
      assert t[j..] == [] && t[i..j] == t[i..];
    }
  }

  /** The bytes that up to four characters give. */
  function Part(t: seq<byte>, i: nat, j: nat): (bytes: seq<byte>)
    requires i < j <= |t| && j <= i + 4
    ensures |bytes| == if j == i + 4 then 3 else j - i
  {
    var y, z := if i + 1 < j then Value(t[i + 1]) else 0, if i + 2 < j then Value(t[i + 2]) else 0;
    [High(Value(t[i]), y)]
    + (if i + 1 < j then [Middle(y, z)] else [])
    + (if i + 2 < j then [Low(z, if i + 3 < j then Value(t[i + 3]) else 0)] else [])
  }

  lemma PartOf(t: seq<byte>, i: nat, j: nat)
    requires i < j <= |t| && j <= i + 4
    ensures j == i + 1 ==> Part(t, i, j) == [High(Value(t[i]), 0)]
    ensures j == i + 2 ==> Part(t, i, j) == [High(Value(t[i]), Value(t[i + 1])), Middle(Value(t[i + 1]), 0)]
    ensures j == i + 3 ==>
            Part(t, i, j) ==
            [High(Value(t[i]), Value(t[i + 1])), Middle(Value(t[i + 1]), Value(t[i + 2])), Low(Value(t[i + 2]), 0)]
    ensures j == i + 4 ==>
            Part(t, i, j) ==
            [High(Value(t[i]), Value(t[i + 1])), Middle(Value(t[i + 1]), Value(t[i + 2])),
             Low(Value(t[i + 2]), Value(t[i + 3]))]
  {
    hide Value, High, Middle, Low;
  }

  lemma PartIsDecode(t: seq<byte>, i: nat, j: nat)
    requires i < j <= |t| && j <= i + 4
    ensures Part(t, i, j) == Decode(t[i..j])
  {
    hide Value, High, Middle, Low;
    if j == i + 4 { assert t[i..j][4..] == []; }
  }

  lemma {:induction false} DecodedSize(text: seq<byte>)
    ensures |Decode(text)| == 3 * (|text| / 4) + |text| % 4
    decreases |text|
  {
    if |text| >= 4 { DecodedSize(text[4..]); }
  }

  /** The bits of a second character, or-ed into a byte that holds those of the first. */
  lemma OrBits(x: sextet, y: sextet)
    ensures High(x, 0) + y / 16 == High(x, y)
    ensures Middle(x, 0) + y / 4 == Middle(x, y)
    ensures Low(x, 0) + y == Low(x, y)
  {}

  /** From position i on the input still holds the text and its end. */
  ghost predicate Pending(input: seq<byte>, i: nat, text: seq<byte>) {
    && i <= |text| < |input| && Ends(input[|text|])
    && forall k :: i <= k < |text| ==> input[k] == text[k] && input[k] < 128 && !Ends(input[k])
  }

  lemma TextPending(input: seq<byte>)
    requires |Text(input)| < |input| && forall i :: 0 <= i < |Text(input)| ==> Text(input)[i] < 128
    ensures Pending(input, 0, Text(input))
  {
    hide Ends;
    var text := Text(input);
    assert forall k :: 0 <= k < |text| ==> input[k] == text[k];
  }

  lemma PendingLater(input: seq<byte>, now: seq<byte>, i: nat, j: nat, text: seq<byte>)
    requires Pending(input, i, text) && i <= j <= |text| && |now| == |input|
    requires forall k :: j <= k < |now| ==> now[k] == input[k]
    ensures Pending(now, j, text)
  {
    hide Ends;
  }

  lemma PendingIsText(input: seq<byte>, i: nat, text: seq<byte>)
    requires Pending(input, i, text)
    ensures Ends(input[i]) <==> i == |text|
  {
    hide Ends;
  }

  /** The decoder's static state. */
  class Codec {
    const decodingTable: array<sextet>
    var decodingTableBuilt: bool

    ghost predicate Valid()
      reads this, decodingTable
    {
      && decodingTable.Length == 128
      && (decodingTableBuilt ==> forall c :: 0 <= c < 128 ==> decodingTable[c] == Value(c))
      && (!decodingTableBuilt ==> forall c :: 0 <= c < 128 ==> decodingTable[c] == 0)
    }

    constructor ()
      ensures Valid() && fresh(decodingTable)
    {
      decodingTable := new sextet[128](_ => 0);
      decodingTableBuilt := false;
    }

    /** build_decoding_table */
    method BuildDecodingTable()
      requires Valid() && !decodingTableBuilt
      modifies this, decodingTable
      ensures Valid() && decodingTableBuilt
    {
      decodingTableBuilt := true;
      for i := 0 to 64
        invariant decodingTableBuilt
        invariant forall c :: 0 <= c < 128 ==>
                  decodingTable[c] == if Value(c) < i && Char(Value(c)) == c then Value(c) else 0
      {
        ValueOfChar(i);
        decodingTable[Char(i)] := i;
      }
    }

    /** The first two characters of a group: one byte is complete, and the next one begun, unless the text ends. */
    method DecodePair(src: array<byte>, dst: array<byte>, inIter: nat, outIter: nat, ghost text: seq<byte>)
      returns (last: bool)
      requires Valid() && decodingTableBuilt && outIter <= inIter < |text| && Pending(src[..], inIter, text)
      requires outIter + (if inIter + 2 <= |text| then 2 else 1) <= dst.Length
      modifies dst
      ensures Valid() && last == (inIter + 1 == |text|)
      ensures last ==> dst[outIter] == High(Value(text[inIter]), 0)
      ensures !last ==> dst[outIter] == High(Value(text[inIter]), Value(text[inIter + 1]))
      ensures !last ==> dst[outIter + 1] == Middle(Value(text[inIter + 1]), 0)
      ensures forall k :: 0 <= k < dst.Length && k != outIter && (last || k != outIter + 1) ==> dst[k] == old(dst[k])
    {
      hide Value, Char, High, Middle, Ends;
      var x := decodingTable[src[inIter]];
      dst[outIter] := High(x, 0);
      assert src[inIter + 1] == old(src[inIter + 1]);
      last := Ends(src[inIter + 1]);
      if !last {
        var y := decodingTable[src[inIter + 1]];
        OrBits(x, y);
        dst[outIter] := dst[outIter] + y / 16;
        dst[outIter + 1] := Middle(y, 0);
      }
    }

    /** The other two; the byte begun by the first two is complete if there are any. */
    method DecodeRest(src: array<byte>, dst: array<byte>, inIter: nat, outIter: nat, ghost text: seq<byte>,
                      ghost y: sextet)
      returns (i: nat, o: nat, last: bool)
      requires Valid() && decodingTableBuilt && outIter + 1 <= inIter <= |text| && Pending(src[..], inIter, text)
      requires outIter + (if inIter < |text| then 2 else 1) <= dst.Length && dst[outIter] == Middle(y, 0)
      modifies dst
      ensures Valid() && i == (if inIter + 2 <= |text| then inIter + 2 else |text|) && last == (i < inIter + 2)
      ensures o == outIter + (if inIter < |text| then 2 else 1)
      ensures i == inIter ==> dst[outIter] == Middle(y, 0)
      ensures i > inIter ==> dst[outIter] == Middle(y, Value(text[inIter]))
      ensures i > inIter ==> dst[outIter + 1] == Low(Value(text[inIter]), if last then 0 else Value(text[inIter + 1]))
      ensures forall k :: 0 <= k < dst.Length && (k < outIter || o <= k) ==> dst[k] == old(dst[k])
    {
      hide Value, Char, High, Middle, Low, Ends;
      i, o, last := inIter, outIter + 1, true;
      if Ends(src[i]) {
        return;
      }
      var z := decodingTable[src[i]];
      OrBits(y, z);
      dst[outIter] := dst[outIter] + z / 4;
      dst[outIter + 1] := Low(z, 0);
      i, o := i + 1, o + 1;
      assert src[i] == old(src[i]);
      if Ends(src[i]) {
        return;
      }
      OrBits(z, decodingTable[src[i]]);
      dst[outIter + 1] := dst[outIter + 1] + decodingTable[src[i]];
      i, last := i + 1, false;
    }

    /** The loop body: up to four characters; last says that the text ended inside it. */
    method DecodeSome(src: array<byte>, dst: array<byte>, inIter: nat, outIter: nat, ghost text: seq<byte>)
      returns (i: nat, o: nat, last: bool)
      requires Valid() && decodingTableBuilt && outIter <= inIter < |text| && Pending(src[..], inIter, text)
      requires outIter + (if inIter + 4 <= |text| then 3 else |text| - inIter) <= dst.Length
      modifies dst
      ensures Valid() && i == (if inIter + 4 <= |text| then inIter + 4 else |text|) && last == (i < inIter + 4)
      ensures inIter < i && o == outIter + |Part(text, inIter, i)| <= dst.Length
      ensures dst[..o] == old(dst[..outIter]) + Part(text, inIter, i)
      ensures forall k :: o <= k < dst.Length ==> dst[k] == old(dst[k])
      ensures Pending(src[..], i, text)
    {
      hide Value, Char, High, Middle, Low, Ends, Part, Pending;
      ghost var input := src[..];
      last := DecodePair(src, dst, inIter, outIter, text);
      if last {
        i, o := inIter + 1, outIter + 1;
      } else {
        PendingLater(input, src[..], inIter, inIter + 2, text);
        input := src[..];
        i, o, last := DecodeRest(src, dst, inIter + 2, outIter + 1, text, Value(text[inIter + 1]));
      }
      PendingLater(input, src[..], if i == inIter + 1 then inIter else inIter + 2, i, text);
      PartOf(text, inIter, i);
    }

    /** base64_decode.  The output may be the input itself; only as many bytes as are returned are written. */
    method DecodeInto(src: array<byte>, dst: array<byte>) returns (outIter: nat)
      requires Valid()
      requires var text := Text(src[..]);
               && |text| < src.Length && |Decode(text)| <= dst.Length
               && forall i :: 0 <= i < |text| ==> text[i] < 128
      modifies this, decodingTable, dst
      ensures Valid()
      ensures outIter == |Decode(Text(old(src[..])))| <= dst.Length && dst[..outIter] == Decode(Text(old(src[..])))
      ensures forall i :: outIter <= i < dst.Length ==> dst[i] == old(dst[i])
    {
      hide Decode, Text, Value, Char, Part, Ends, High, Middle, Low, Pending;
      if !decodingTableBuilt {
        BuildDecodingTable();
      }
      ghost var text := Text(src[..]);
      ghost var n := |text|;
      var inIter, last := 0, false;
      outIter := 0;
      assert text[0..] == text;
      TextPending(src[..]);
      while !last && !Ends(src[inIter])
        invariant Valid() && decodingTableBuilt && Pending(src[..], inIter, text)
        invariant inIter <= n < src.Length && outIter <= inIter && (last ==> inIter == n)
        invariant outIter + |Decode(text[inIter..])| == |Decode(text)|
        invariant dst[..outIter] + Decode(text[inIter..]) == Decode(text)
        invariant forall i :: outIter <= i < dst.Length ==> dst[i] == old(dst[i])
        decreases n - inIter
      {
        PendingIsText(src[..], inIter, text);
        ghost var i, done := inIter, dst[..outIter];
        DecodedSize(text[i..]);
        inIter, outIter, last := DecodeSome(src, dst, inIter, outIter, text);
        DecodeStep(text, i, inIter);
        PartIsDecode(text, i, inIter);
        assert done + (Part(text, i, inIter) + Decode(text[inIter..])) == dst[..outIter] + Decode(text[inIter..]);
      }
      PendingIsText(src[..], inIter, text);
      assert text[inIter..] == [];
      DecodedSize([]);
    }
  }

  /** Encoding, then decoding the result in its own storage. */
  method RoundTripInPlace(src: array<byte>, out: array<byte>, trail: bool, codec: Codec) returns (n: nat)
    requires src != out && out.Length >= EncodeSize(src.Length) && codec.Valid()
    modifies out, codec, codec.decodingTable
    ensures n == src.Length + |Extra(src.Length)| <= out.Length && out[..n] == src[..] + Extra(src.Length)
  {
    hide Encode, Decode, Text, Char, Padding;
    ghost var bytes := src[..];
    var k := EncodeInto(src, src.Length, out, trail);
    assert src[..src.Length] == bytes;
    DecodingInvertsEncoding(bytes, trail, out[k + 1..]);
    assert out[..] == Encode(bytes) + Padding(|bytes|, trail) + [0] + out[k + 1..];
    EncodedTextIsAscii(bytes, trail, out[k + 1..]);
    n := codec.DecodeInto(out, out);
  }

  lemma EncodedTextIsAscii(bytes: seq<byte>, trail: bool, rest: seq<byte>)
    ensures var s := Encode(bytes) + Padding(|bytes|, trail) + [0] + rest;
            |Text(s)| < |s| && forall i :: 0 <= i < |Text(s)| ==> Text(s)[i] < 128
  {
    EncodedIsText(bytes);
    var after := Padding(|bytes|, trail) + [0] + rest;
    assert Encode(bytes) + Padding(|bytes|, trail) + [0] + rest == Encode(bytes) + after;
    TextEnds(Encode(bytes), after);
  }
}
