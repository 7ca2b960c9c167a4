/**
 * The standard base 64 codec of section 4 of RFC 4648 (the `Convert.ToBase64String`
 * / `Convert.FromBase64String` step underneath the URL-safe variant): three
 * octets become four characters of a 64-letter alphabet, a final group of one
 * or two octets is padded with `=` to four characters.
 */
module Base64 {
  import opened Wrappers

  type uint8 = x: int | 0 <= x < 0x100

  /** The alphabet of section 4 of RFC 4648: `A`-`Z`, `a`-`z`, `0`-`9`, `+`, `/`. */
  predicate IsBase64Char(c: char) {
    || ('A' <= c <= 'Z') || ('a' <= c <= 'z') || ('0' <= c <= '9') || c == '+' || c == '/'
  }

  predicate IsBase64String(s: string) {
    forall i :: 0 <= i < |s| ==> IsBase64Char(s[i])
  }

  /** The character that encodes the six-bit value `i`. */
  function IndexToChar(i: int): (c: char)
    requires 0 <= i < 64
    ensures IsBase64Char(c)
  {
    if i < 26 then (i + 'A' as int) as char
    else if i < 52 then (i - 26 + 'a' as int) as char
    else if i < 62 then (i - 52 + '0' as int) as char
    else if i == 62 then '+'
    else '/'
  }

  /** The six-bit value an alphabet character stands for. */
  function CharToIndex(c: char): (i: int)
    requires IsBase64Char(c)
    ensures 0 <= i < 64 && IndexToChar(i) == c
  {
    if 'A' <= c <= 'Z' then c as int - 'A' as int
    else if 'a' <= c <= 'z' then c as int - 'a' as int + 26
    else if '0' <= c <= '9' then c as int - '0' as int + 52
    else if c == '+' then 62
    else 63
  }

  /** Two different six-bit values never share a character. */
  lemma IndexToCharToIndex(i: int)
    requires 0 <= i < 64
    ensures CharToIndex(IndexToChar(i)) == i
  {
  }

  /** The characters of the encoding, without the trailing `=` padding. */
  function EncodeUnpadded(bs: seq<uint8>): (s: string)
    ensures IsBase64String(s)
    ensures |s| == 4 * (|bs| / 3) + (if |bs| % 3 == 0 then 0 else |bs| % 3 + 1)
  {
    if |bs| == 0 then ""
    else if |bs| == 1 then
      [IndexToChar(bs[0] / 4), IndexToChar((bs[0] % 4) * 16)]
    else if |bs| == 2 then
      [IndexToChar(bs[0] / 4), IndexToChar((bs[0] % 4) * 16 + bs[1] / 16), IndexToChar((bs[1] % 16) * 4)]
    else
      EncodeBlock(bs[0], bs[1], bs[2]) + EncodeUnpadded(bs[3..])
  }

  /** Three octets as four alphabet characters, most significant bits first. */
  function EncodeBlock(b0: uint8, b1: uint8, b2: uint8): (s: string)
    ensures |s| == 4 && IsBase64String(s)
  {
    [IndexToChar(b0 / 4), IndexToChar((b0 % 4) * 16 + b1 / 16),
     IndexToChar((b1 % 16) * 4 + b2 / 64), IndexToChar(b2 % 64)]
  }

  /** The `=` characters that fill a final group of `n % 3` octets up to four characters. */
  function Padding(n: nat): (pad: string)
    ensures forall i :: 0 <= i < |pad| ==> pad[i] == '='
  {
    if n % 3 == 1 then "==" else if n % 3 == 2 then "=" else ""
  }

  /** `Convert.ToBase64String`. */
  function ToBase64String(bs: seq<uint8>): (s: string)
    ensures |s| % 4 == 0
    ensures forall i :: 0 <= i < |s| ==> IsBase64Char(s[i]) || s[i] == '='
  {
    EncodeUnpadded(bs) + Padding(|bs|)
  }

  /** Four alphabet characters back to three octets. */
  function DecodeBlock(q: string): (bs: seq<uint8>)
    requires |q| == 4 && IsBase64String(q)
    ensures |bs| == 3
  {
    var c0, c1, c2, c3 := CharToIndex(q[0]), CharToIndex(q[1]), CharToIndex(q[2]), CharToIndex(q[3]);
    [c0 * 4 + c1 / 16, (c1 % 16) * 16 + c2 / 4, (c2 % 4) * 64 + c3]
  }

  /**
   * The last group of four characters: two alphabet characters and `==` carry one
   * octet, three and `=` carry two, four carry three; anything else is malformed.
   */
  function DecodeFinal(q: string): (r: Result<seq<uint8>>)
    requires |q| == 4
    ensures r.Success? ==> 1 <= |r.value| <= 3
    ensures r.Failure? ==> r.error == Format
  {
    if IsBase64String(q) then Success(DecodeBlock(q))
    else if IsBase64String(q[..3]) && q[3] == '=' then
      var c0, c1, c2 := CharToIndex(q[0]), CharToIndex(q[1]), CharToIndex(q[2]);
      Success([c0 * 4 + c1 / 16, (c1 % 16) * 16 + c2 / 4])
    else if IsBase64String(q[..2]) && q[2] == '=' && q[3] == '=' then
      var c0, c1 := CharToIndex(q[0]), CharToIndex(q[1]);
      Success([c0 * 4 + c1 / 16])
    else Failure(Format)
  }

  /** The groups of a string whose length is a multiple of four; padding may only end the last group. */
  function DecodeGroups(s: string): (r: Result<seq<uint8>>)
    requires |s| % 4 == 0
    ensures r.Failure? ==> r.error == Format
    decreases |s|
  {
    if |s| == 0 then Success([])
    else if |s| == 4 then DecodeFinal(s)
    else if IsBase64String(s[..4]) then
      var rest :- DecodeGroups(s[4..]);
      Success(DecodeBlock(s[..4]) + rest)
    else Failure(Format)
  }

  /**
   * The text the decoder accepts once its length is a multiple of four:
   * alphabet characters, with `=` only in the last two places and, when in the
   * second to last, also in the last.
   */
  predicate IsPaddedBase64(s: string)
  {
    && (forall i :: 0 <= i < |s| ==> IsBase64Char(s[i]) || (s[i] == '=' && i >= |s| - 2))
    && (|s| >= 2 && s[|s| - 2] == '=' ==> s[|s| - 1] == '=')
  }

  /**
   * `Convert.FromBase64String`: a length that is not a multiple of four, a
   * character outside the alphabet or misplaced padding is a `FormatException`.
   */
  function FromBase64String(s: string): (r: Result<seq<uint8>>)
    ensures |s| % 4 != 0 ==> r == Failure(Format)
    ensures r.Success? <==> |s| % 4 == 0 && IsPaddedBase64(s)
    ensures r.Failure? ==> r.error == Format
  {
    if |s| % 4 != 0 then Failure(Format)
    else
      DecodeGroupsAccepts(s);
      DecodeGroups(s)
  }

  /** The last group is accepted exactly when it is alphabet text padded at the end. */
  lemma DecodeFinalAccepts(q: string)
    requires |q| == 4
    ensures DecodeFinal(q).Success? <==> IsPaddedBase64(q)
  {
    if IsPaddedBase64(q) && !IsBase64String(q) {
      if q[3] == '=' && q[2] != '=' {
        assert IsBase64String(q[..3]);
      } else {
        assert IsBase64String(q[..2]);
      }
    }
  }

  /** Groups in front of the last one must be all alphabet characters. */
  lemma PaddedSplit(s: string)
    requires |s| >= 8
    ensures IsPaddedBase64(s) <==> IsBase64String(s[..4]) && IsPaddedBase64(s[4..])
  {
    var t := s[4..];
    assert forall i :: 4 <= i < |s| ==> s[i] == t[i - 4];
    if IsBase64String(s[..4]) && IsPaddedBase64(t) {
      forall i | 0 <= i < |s|
        ensures IsBase64Char(s[i]) || (s[i] == '=' && i >= |s| - 2)
      {
        if i < 4 {
          assert s[i] == s[..4][i];
        } else {
          assert s[i] == t[i - 4];
        }
      }
      assert s[|s| - 2] == t[|t| - 2] && s[|s| - 1] == t[|t| - 1];
    }
    if IsPaddedBase64(s) {
      assert s[|s| - 2] == t[|t| - 2] && s[|s| - 1] == t[|t| - 1];
      assert forall i :: 0 <= i < 4 ==> s[..4][i] == s[i];
    }
  }

  /** `DecodeGroups` accepts exactly the well-padded alphabet text. */
  lemma {:induction false} DecodeGroupsAccepts(s: string)
    requires |s| % 4 == 0
    ensures DecodeGroups(s).Success? <==> IsPaddedBase64(s)
    decreases |s|
  {
    if |s| == 4 {
      DecodeFinalAccepts(s);
    } else if |s| > 4 {
      DecodeGroupsAccepts(s[4..]);
      PaddedSplit(s);
    }
  }

  lemma DecodeEncodeBlock(b0: uint8, b1: uint8, b2: uint8)
    ensures DecodeBlock(EncodeBlock(b0, b1, b2)) == [b0, b1, b2]
  {
    var c0, c1, c2, c3 := b0 / 4, (b0 % 4) * 16 + b1 / 16, (b1 % 16) * 4 + b2 / 64, b2 % 64;
    IndexToCharToIndex(c0);
    IndexToCharToIndex(c1);
    IndexToCharToIndex(c2);
    IndexToCharToIndex(c3);
    assert c1 / 16 == b0 % 4 && c1 % 16 == b1 / 16;
    assert c2 / 4 == b1 % 16 && c2 % 4 == b2 / 64;
  }

  lemma DecodeEncodeOne(bs: seq<uint8>)
    requires |bs| == 1
    ensures FromBase64String(ToBase64String(bs)) == Success(bs)
  {
    var b0 := bs[0];
    assert bs == [b0];
    var c0, c1 := b0 / 4, (b0 % 4) * 16;
    IndexToCharToIndex(c0);
    IndexToCharToIndex(c1);
    var s := ToBase64String(bs);
    assert s == [IndexToChar(c0), IndexToChar(c1), '=', '='];
    assert !IsBase64Char(s[2]) && s[..2] == [IndexToChar(c0), IndexToChar(c1)];
    assert c1 / 16 == b0 % 4;
  }

  lemma DecodeEncodeTwo(bs: seq<uint8>)
    requires |bs| == 2
    ensures FromBase64String(ToBase64String(bs)) == Success(bs)
  {
    var b0, b1 := bs[0], bs[1];
    assert bs == [b0, b1];
    var c0, c1, c2 := b0 / 4, (b0 % 4) * 16 + b1 / 16, (b1 % 16) * 4;
    IndexToCharToIndex(c0);
    IndexToCharToIndex(c1);
    IndexToCharToIndex(c2);
    var s := ToBase64String(bs);
    assert s == [IndexToChar(c0), IndexToChar(c1), IndexToChar(c2), '='];
    assert !IsBase64Char(s[3]) && s[..3] == [IndexToChar(c0), IndexToChar(c1), IndexToChar(c2)];
    assert c1 / 16 == b0 % 4 && c1 % 16 == b1 / 16 && c2 / 4 == b1 % 16;
  }

  /** Decoding undoes encoding: `FromBase64String(ToBase64String(bs)) == bs`. */
  lemma {:induction false} DecodeEncode(bs: seq<uint8>)
    ensures FromBase64String(ToBase64String(bs)) == Success(bs)
    decreases |bs|
  {
    var s := ToBase64String(bs);
    if |bs| == 0 {
    } else if |bs| == 1 {
      DecodeEncodeOne(bs);
    } else if |bs| == 2 {
      DecodeEncodeTwo(bs);
    } else if |bs| == 3 {
      DecodeEncodeThree(bs);
    } else {
      DecodeEncode(bs[3..]);
      DecodeEncodeLonger(bs);
    }
  }

  lemma DecodeEncodeThree(bs: seq<uint8>)
    requires |bs| == 3
    ensures FromBase64String(ToBase64String(bs)) == Success(bs)
  {
    var block := EncodeBlock(bs[0], bs[1], bs[2]);
    DecodeEncodeBlock(bs[0], bs[1], bs[2]);
    EncodeSplit(bs);
    assert ToBase64String(bs[3..]) == "";
    assert ToBase64String(bs) == block;
    assert FromBase64String(block) == Success(DecodeBlock(block));
    assert bs == [bs[0], bs[1], bs[2]];
  }

  /** A group of three octets in front of a longer input decodes ahead of the rest. */
  lemma DecodeEncodeLonger(bs: seq<uint8>)
    requires |bs| > 3 && FromBase64String(ToBase64String(bs[3..])) == Success(bs[3..])
    ensures FromBase64String(ToBase64String(bs)) == Success(bs)
  {
    var block, rest := EncodeBlock(bs[0], bs[1], bs[2]), ToBase64String(bs[3..]);
    EncodeSplit(bs);
    DecodeEncodeBlock(bs[0], bs[1], bs[2]);
    DecodeGroupsSplit(block, rest, bs[3..]);
    FirstThree(bs);
  }

  lemma FirstThree(bs: seq<uint8>)
    requires |bs| >= 3
    ensures bs == [bs[0], bs[1], bs[2]] + bs[3..]
  {
  }

  lemma EncodeSplit(bs: seq<uint8>)
    requires |bs| >= 3
    ensures ToBase64String(bs) == EncodeBlock(bs[0], bs[1], bs[2]) + ToBase64String(bs[3..])
  {
    assert Padding(|bs|) == Padding(|bs| - 3);
  }

  lemma DecodeGroupsSplit(block: string, rest: string, tail: seq<uint8>)
    requires |block| == 4 && IsBase64String(block) && |rest| > 0 && |rest| % 4 == 0
    requires DecodeGroups(rest) == Success(tail)
    ensures DecodeGroups(block + rest) == Success(DecodeBlock(block) + tail)
  {
    var s := block + rest;
    assert s[..4] == block && s[4..] == rest;
  }

}
