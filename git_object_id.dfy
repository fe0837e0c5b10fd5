/** `GitImplementation._object`: a textual object id is turned into its binary form
    by pairing the characters at even positions with those at odd positions and
    reading each pair as a base-16 number, the way Python 2's `int(pair, 16)` reads
    it; a pair that does not parse aborts the conversion. */
module GitObjectId {
  import opened Wrappers
  import opened Text

  newtype byte = x: int | 0 <= x < 256

  function HexValue(c: char): (r: Option<nat>)
    ensures r.Some? ==> r.value < 16
  {
    if '0' <= c <= '9' then Some(c as nat - '0' as nat)
    else if 'a' <= c <= 'f' then Some(c as nat - 'a' as nat + 10)
    else if 'A' <= c <= 'F' then Some(c as nat - 'A' as nat + 10)
    else None
  }

  /** `chr(int(e + o, 16))`: two hex digits, one hex digit with surrounding
      whitespace, or one hex digit after a sign; `chr` refuses a negative value, so
      after `-` only `0` is accepted. Anything else raises. */
  function PairValue(e: char, o: char): (r: Option<byte>)
    ensures HexValue(e).Some? && HexValue(o).Some? ==>
              r == Some((16 * HexValue(e).value + HexValue(o).value) as byte)
    ensures IsSpace(e) && IsSpace(o) ==> r.None?
  {
    match (HexValue(e), HexValue(o))
    case (Some(h), Some(l)) => Some((16 * h + l) as byte)
    case (None, Some(l)) =>
      if IsSpace(e) || e == '+' then Some(l as byte)
      else if e == '-' && l == 0 then Some(0)
      else None
    case (Some(h), None) => if IsSpace(o) then Some(h as byte) else None
    case (None, None) => None
  }

  /** `oid[::2]`. */
  function Evens(s: string): (r: string)
    ensures |r| == (|s| + 1) / 2
    ensures forall i :: 0 <= i < |r| ==> r[i] == s[2 * i]
  {
    if |s| == 0 then [] else if |s| == 1 then [s[0]] else [s[0]] + Evens(s[2..])
  }

  /** `oid[1::2]`. */
  function Odds(s: string): (r: string)
    ensures |r| == |s| / 2
    ensures forall i :: 0 <= i < |r| ==> r[i] == s[2 * i + 1]
  {
    if |s| < 2 then [] else [s[1]] + Odds(s[2..])
  }

  /** `prefix + rest` when the rest succeeded. */
  function Glue(prefix: seq<byte>, rest: Option<seq<byte>>): Option<seq<byte>> {
    if rest.None? then None else Some(prefix + rest.value)
  }

  /** The bytes of `zip(evens, odds)`: as many as the shorter list has, or failure. */
  function ZipDecode(evens: string, odds: string): (r: Option<seq<byte>>)
    ensures r.Some? ==> |r.value| == if |evens| < |odds| then |evens| else |odds|
  {
    if evens == [] || odds == [] then Some([])
    else match PairValue(evens[0], odds[0])
      case None => None
      case Some(v) => Glue([v], ZipDecode(evens[1..], odds[1..]))
  }

  function Decode(oid: string): (r: Option<seq<byte>>)
    ensures r.Some? ==> |r.value| == |oid| / 2
  {
    ZipDecode(Evens(oid), Odds(oid))
  }

  /** The decoding succeeds exactly when every pair parses, and then byte `i` is the
      value of characters `2i` and `2i+1`; a trailing odd character is ignored. */
  lemma DecodePairs(oid: string)
    ensures Decode(oid).Some? <==> forall i :: 0 <= i < |oid| / 2 ==> PairValue(oid[2 * i], oid[2 * i + 1]).Some?
    ensures Decode(oid).Some? ==>
              |Decode(oid).value| == |oid| / 2 &&
              forall i :: 0 <= i < |oid| / 2 ==> Decode(oid).value[i] == PairValue(oid[2 * i], oid[2 * i + 1]).value
  {
    ZipDecodePairs(Evens(oid), Odds(oid));
  }

  lemma {:induction false} ZipDecodePairs(evens: string, odds: string)
    requires |odds| <= |evens|
    ensures ZipDecode(evens, odds).Some? <==> forall i :: 0 <= i < |odds| ==> PairValue(evens[i], odds[i]).Some?
    ensures ZipDecode(evens, odds).Some? ==>
              forall i :: 0 <= i < |odds| ==> ZipDecode(evens, odds).value[i] == PairValue(evens[i], odds[i]).value
  {
    if evens != [] && odds != [] {
      ZipDecodePairs(evens[1..], odds[1..]);
      assert forall i :: 0 < i < |odds| ==> evens[i] == evens[1..][i - 1] && odds[i] == odds[1..][i - 1];
    }
  }

  /** The loop of `_object`: append one byte per pair, stopping at the first pair
      that does not parse. */
  method DecodeObjectId(oid: string) returns (binsha: Option<seq<byte>>)
    ensures binsha == Decode(oid)
  {
    var evens := Evens(oid);
    var odds := Odds(oid);
    var n := if |evens| < |odds| then |evens| else |odds|;
    var acc: seq<byte> := [];
    var i := 0;
    assert evens[0..] == evens && odds[0..] == odds;
    assert ZipDecode(evens, odds).Some? ==> [] + ZipDecode(evens, odds).value == ZipDecode(evens, odds).value;
    while i < n
      invariant 0 <= i <= n
      invariant Decode(oid) == Glue(acc, ZipDecode(evens[i..], odds[i..]))
    {
      var v := PairValue(evens[i], odds[i]);
      if v.None? {
        return None;
      }
      assert evens[i..][1..] == evens[i + 1..] && odds[i..][1..] == odds[i + 1..];
      assert acc + ([v.value] + ZipDecode(evens[i + 1..], odds[i + 1..]).GetOr([])) ==
             (acc + [v.value]) + ZipDecode(evens[i + 1..], odds[i + 1..]).GetOr([]);
      acc := acc + [v.value];
      i := i + 1;
    }
    assert acc + [] == acc;
    binsha := Some(acc);
  }

  /** The lower-case hex digit of `d`. */
  function Digit(d: nat): (c: char)
    requires d < 16
    ensures HexValue(c) == Some(d)
  {
    if d < 10 then ('0' as int + d) as char else ('a' as int + d - 10) as char
  }

  /** The lower-case hex form of binary object ids (`hexsha`). */
  function Encode(bs: seq<byte>): (s: string)
    ensures |s| == 2 * |bs|
  {
    if bs == [] then [] else [Digit(bs[0] as nat / 16), Digit(bs[0] as nat % 16)] + Encode(bs[1..])
  }

  /** Reading back the hex form of any binary id gives that id. */
  lemma {:induction false} DecodeEncode(bs: seq<byte>)
    ensures Decode(Encode(bs)) == Some(bs)
  {
    if bs != [] {
      var s := Encode(bs);
      var rest := Encode(bs[1..]);
      DecodeEncode(bs[1..]);
      assert s[2..] == rest;
      assert Evens(s) == [s[0]] + Evens(rest);
      assert Odds(s) == [s[1]] + Odds(rest);
      assert [bs[0]] + bs[1..] == bs;
    }
  }
}
