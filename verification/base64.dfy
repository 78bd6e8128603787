/**
 * `Convert.FromBase64String`: the standard alphabet of section 4 of RFC 4648
 * (`A-Z`, `a-z`, `0-9`, `+`, `/`) with `=` padding. As in .NET, the four
 * characters space, tab, carriage return and line feed are skipped anywhere;
 * what remains must be a whole number of four-character groups, and `=` may
 * appear only as one or two characters closing the last group. Bits left
 * over by the padding are discarded. The URL-safe alphabet of section 5
 * (`-`, `_`) is not accepted.
 *
 * `Encode` is the standard encoder, the partner the decoder is proved against.
 */
module Base64 {
  import opened Wrappers
  import opened Bits

  predicate IsAlphabetChar(c: char) {
    'A' <= c <= 'Z' || 'a' <= c <= 'z' || '0' <= c <= '9' || c == '+' || c == '/'
  }

  /** The six bits a character of the alphabet stands for. */
  function SextetOf(c: char): (v: nat)
    requires IsAlphabetChar(c)
    ensures v < 64
  {
    if 'A' <= c <= 'Z' then c as int - 'A' as int
    else if 'a' <= c <= 'z' then c as int - 'a' as int + 26
    else if '0' <= c <= '9' then c as int - '0' as int + 52
    else if c == '+' then 62
    else 63
  }

  /** The character of the alphabet for six bits. */
  function CharOf(v: nat): (c: char)
    requires v < 64
    ensures IsAlphabetChar(c) && SextetOf(c) == v
  {
    if v < 26 then ('A' as int + v) as char
    else if v < 52 then ('a' as int + v - 26) as char
    else if v < 62 then ('0' as int + v - 52) as char
    else if v == 62 then '+'
    else '/'
  }

  /** The white space `FromBase64String` skips. */
  predicate IsSkipped(c: char) {
    c == ' ' || c == '\t' || c == '\r' || c == '\n'
  }

  function RemoveSkipped(s: string): (r: string)
    ensures forall i | 0 <= i < |r| :: !IsSkipped(r[i])
    ensures forall i | 0 <= i < |r| :: r[i] in s
  {
    if s == [] then []
    else (if IsSkipped(s[0]) then [] else [s[0]]) + RemoveSkipped(s[1..])
  }

  lemma {:induction false} RemoveSkippedNone(s: string)
    requires forall i | 0 <= i < |s| :: !IsSkipped(s[i])
    ensures RemoveSkipped(s) == s
  {
    if s != [] {
      RemoveSkippedNone(s[1..]);
    }
  }

  /** The bytes of one group of four characters, or `None` when the group is
      malformed; `last` says whether padding may close it. */
  function DecodeGroup(q: string, last: bool): (r: Option<seq<byte>>)
    requires |q| == 4
    ensures r.Some? ==> 1 <= |r.value| <= 3
    ensures r.Some? && !last ==> |r.value| == 3
  {
    if IsAlphabetChar(q[0]) && IsAlphabetChar(q[1]) then
      var a, b := SextetOf(q[0]), SextetOf(q[1]);
      var b0 := a * 4 + b / 16;
      if IsAlphabetChar(q[2]) && IsAlphabetChar(q[3]) then
        var c, d := SextetOf(q[2]), SextetOf(q[3]);
        Some([b0, (b % 16) * 16 + c / 4, (c % 4) * 64 + d])
      else if last && IsAlphabetChar(q[2]) && q[3] == '=' then
        var c := SextetOf(q[2]);
        Some([b0, (b % 16) * 16 + c / 4])
      else if last && q[2] == '=' && q[3] == '=' then
        Some([b0])
      else None
    else None
  }

  /** Decodes a run of whole groups. */
  function DecodeGroups(t: string): (r: Option<seq<byte>>)
    requires |t| % 4 == 0
    ensures r.Some? ==> |r.value| <= 3 * (|t| / 4)
    ensures r.Some? && t != [] ==> 3 * (|t| / 4) - 2 <= |r.value|
    decreases |t|
  {
    if t == [] then Some([])
    else
      match DecodeGroup(t[..4], |t| == 4)
      case None => None
      case Some(head) =>
        match DecodeGroups(t[4..])
        case None => None
        case Some(tail) => Some(head + tail)
  }

  /** `Convert.FromBase64String(s)`; `None` stands for the `FormatException`.
      Every four characters left after the skipped white space give three
      bytes, except that padding may leave one or two bytes fewer. */
  function Decode(s: string): (r: Option<seq<byte>>)
    ensures r.Some? ==> |RemoveSkipped(s)| % 4 == 0
    ensures r.Some? ==> |r.value| <= 3 * (|RemoveSkipped(s)| / 4)
    ensures r.Some? && RemoveSkipped(s) != [] ==> 3 * (|RemoveSkipped(s)| / 4) - 2 <= |r.value|
  {
    var t := RemoveSkipped(s);
    if |t| % 4 != 0 then None else DecodeGroups(t)
  }

  /** The group written for one final byte: two characters and two `=`. */
  function OneByteGroup(x: byte): (g: string)
    ensures |g| == 4
  {
    [CharOf(x / 4), CharOf((x % 4) * 16), '=', '=']
  }

  /** The group written for two final bytes: three characters and one `=`. */
  function TwoByteGroup(x: byte, y: byte): (g: string)
    ensures |g| == 4
  {
    [CharOf(x / 4), CharOf((x % 4) * 16 + y / 16), CharOf((y % 16) * 4), '=']
  }

  /** The group written for three bytes: four characters. */
  function ThreeByteGroup(x: byte, y: byte, z: byte): (g: string)
    ensures |g| == 4
  {
    [CharOf(x / 4), CharOf((x % 4) * 16 + y / 16), CharOf((y % 16) * 4 + z / 64), CharOf(z % 64)]
  }

  /** `Convert.ToBase64String(bytes)`. */
  function Encode(bytes: seq<byte>): (s: string)
    ensures |s| % 4 == 0
    decreases |bytes|
  {
    if bytes == [] then []
    else if |bytes| == 1 then OneByteGroup(bytes[0])
    else if |bytes| == 2 then TwoByteGroup(bytes[0], bytes[1])
    else ThreeByteGroup(bytes[0], bytes[1], bytes[2]) + Encode(bytes[3..])
  }

  /** Four characters for every started group of three bytes. */
  lemma {:induction false} EncodedLength(bytes: seq<byte>)
    ensures |Encode(bytes)| == 4 * ((|bytes| + 2) / 3)
    decreases |bytes|
  {
    if |bytes| > 2 {
      EncodedLength(bytes[3..]);
      assert (|bytes| - 3 + 2) / 3 == (|bytes| + 2) / 3 - 1;
    }
  }

  /** The encoder writes only alphabet characters and `=`. */
  lemma {:induction false} EncodeChars(bytes: seq<byte>)
    ensures forall i | 0 <= i < |Encode(bytes)| :: IsAlphabetChar(Encode(bytes)[i]) || Encode(bytes)[i] == '='
    decreases |bytes|
  {
    if |bytes| > 2 {
      EncodeChars(bytes[3..]);
    }
  }

  /** The group the encoder writes for one final byte decodes to it. */
  lemma DecodeOneByteGroup(x: byte)
    ensures DecodeGroup(OneByteGroup(x), true) == Some([x])
  {
  }

  /** The group the encoder writes for two final bytes decodes to them. */
  lemma DecodeTwoByteGroup(x: byte, y: byte)
    ensures DecodeGroup(TwoByteGroup(x, y), true) == Some([x, y])
  {
    var b, c := (x % 4) * 16 + y / 16, (y % 16) * 4;
    assert b / 16 == x % 4 && b % 16 == y / 16 && c / 4 == y % 16;
  }

  /** The group the encoder writes for three bytes decodes to them, last or not. */
  lemma DecodeThreeByteGroup(x: byte, y: byte, z: byte, last: bool)
    ensures DecodeGroup(ThreeByteGroup(x, y, z), last) == Some([x, y, z])
  {
    var b, c := (x % 4) * 16 + y / 16, (y % 16) * 4 + z / 64;
    assert b / 16 == x % 4 && b % 16 == y / 16;
    assert c / 4 == y % 16 && c % 4 == z / 64;
  }

  /** Decoding the encoder's groups gives the bytes back. */
  lemma {:induction false} DecodeGroupsEncode(bytes: seq<byte>)
    ensures DecodeGroups(Encode(bytes)) == Some(bytes)
    decreases |bytes|
  {
    var s := Encode(bytes);
    if bytes != [] {
      assert DecodeGroup(s[..4], |s| == 4) == Some(bytes[..if |bytes| < 3 then |bytes| else 3]) by {
        if |bytes| == 1 {
          DecodeOneByteGroup(bytes[0]);
          assert s[..4] == s;
          assert bytes[..1] == [bytes[0]];
        } else if |bytes| == 2 {
          DecodeTwoByteGroup(bytes[0], bytes[1]);
          assert s[..4] == s;
          assert bytes[..2] == [bytes[0], bytes[1]];
        } else {
          var x, y, z := bytes[0], bytes[1], bytes[2];
          DecodeThreeByteGroup(x, y, z, |s| == 4);
          assert s[..4] == ThreeByteGroup(x, y, z);
          assert bytes[..3] == [x, y, z];
        }
      }
      if |bytes| < 3 {
        assert s[4..] == [];
        assert bytes[..|bytes|] + [] == bytes;
      } else {
        DecodeGroupsEncode(bytes[3..]);
        assert s[4..] == Encode(bytes[3..]);
        assert bytes[..3] + bytes[3..] == bytes;
      }
    }
  }

  /** Round trip: `FromBase64String(ToBase64String(bytes)) == bytes`. */
  lemma DecodeEncode(bytes: seq<byte>)
    ensures Decode(Encode(bytes)) == Some(bytes)
  {
    EncodeChars(bytes);
    RemoveSkippedNone(Encode(bytes));
    DecodeGroupsEncode(bytes);
  }

  /** A character that is neither of the alphabet, nor `=`, nor skipped white
      space makes the whole decode fail. */
  lemma {:induction false} ForeignCharFails(s: string, i: nat)
    requires i < |s|
    requires !IsAlphabetChar(s[i]) && s[i] != '=' && !IsSkipped(s[i])
    ensures Decode(s) == None
  {
    var t := RemoveSkipped(s);
    RemoveSkippedKeeps(s, i);
    if |t| % 4 == 0 {
      GroupsRejectForeign(t, s[i]);
    }
  }

  /** A character not skipped survives the removal of white space. */
  lemma {:induction false} RemoveSkippedKeeps(s: string, i: nat)
    requires i < |s| && !IsSkipped(s[i])
    ensures s[i] in RemoveSkipped(s)
  {
    if i > 0 {
      RemoveSkippedKeeps(s[1..], i - 1);
    }
  }

  lemma {:induction false} GroupsRejectForeign(t: string, c: char)
    requires |t| % 4 == 0
    requires c in t && !IsAlphabetChar(c) && c != '='
    ensures DecodeGroups(t) == None
    decreases |t|
  {
    if c !in t[..4] {
      assert t == t[..4] + t[4..];
      GroupsRejectForeign(t[4..], c);
    }
  }

  /** `FromBase64String` rejects the URL-safe characters of section 5 of
      RFC 4648. */
  lemma UrlSafeCharFails(s: string, i: nat)
    requires i < |s| && (s[i] == '-' || s[i] == '_')
    ensures Decode(s) == None
  {
    ForeignCharFails(s, i);
  }
}
