/** BSON ObjectIds as the router sees them: twelve bytes, written out by
    `str(oid)` as 24 lower-case hexadecimal digits and read back by
    `ObjectId(text)`, which raises on text that is not 24 hexadecimal digits
    (either case). */
module ObjectIds {
  import opened Optional

  newtype byte = x: int | 0 <= x < 256

  type ObjectId = b: seq<byte> | |b| == 12 witness seq(12, i => 0)

  predicate IsHexDigit(c: char) {
    '0' <= c <= '9' || 'a' <= c <= 'f' || 'A' <= c <= 'F'
  }

  predicate IsLowerHex(s: string) {
    forall i | 0 <= i < |s| :: '0' <= s[i] <= '9' || 'a' <= s[i] <= 'f'
  }

  predicate IsHex(s: string) {
    forall i | 0 <= i < |s| :: IsHexDigit(s[i])
  }

  function HexValue(c: char): (v: nat)
    requires IsHexDigit(c)
    ensures v < 16
  {
    if '0' <= c <= '9' then c as int - '0' as int
    else if 'a' <= c <= 'f' then c as int - 'a' as int + 10
    else c as int - 'A' as int + 10
  }

  /** The lower-case digit of a nibble; `HexValue` reads it back. */
  function HexDigit(n: nat): (c: char)
    requires n < 16
    ensures ('0' <= c <= '9' || 'a' <= c <= 'f') && HexValue(c) == n
  {
    if n < 10 then ('0' as int + n) as char else ('a' as int + n - 10) as char
  }

  /** The hexadecimal text of a byte string, two lower-case digits per byte,
      high nibble first. */
  function Hex(bs: seq<byte>): (s: string)
    ensures |s| == 2 * |bs| && IsLowerHex(s)
  {
    if bs == [] then []
    else [HexDigit(bs[0] as nat / 16), HexDigit(bs[0] as nat % 16)] + Hex(bs[1..])
  }

  /** The bytes written by a string of hexadecimal digits of even length
      (Python's `bytes.fromhex` on such a string). */
  function Unhex(s: string): (bs: seq<byte>)
    requires |s| % 2 == 0 && IsHex(s)
    ensures 2 * |bs| == |s|
  {
    if s == [] then []
    else [(16 * HexValue(s[0]) + HexValue(s[1])) as byte] + Unhex(s[2..])
  }

  lemma {:induction false} UnhexHex(bs: seq<byte>)
    ensures Unhex(Hex(bs)) == bs
  {
    if bs != [] {
      var s := Hex(bs);
      assert s[2..] == Hex(bs[1..]);
      UnhexHex(bs[1..]);
    }
  }

  /** `str(oid)`. */
  function HexString(id: ObjectId): (s: string)
    ensures |s| == 24 && IsLowerHex(s)
  {
    Hex(id)
  }

  /** `ObjectId(s)` for a string `s`: the id when `s` is 24 hexadecimal
      digits, and `None` where the constructor raises. */
  function Parse(s: string): (r: Option<ObjectId>)
    ensures r.Some? <==> |s| == 24 && IsHex(s)
  {
    if |s| == 24 && IsHex(s) then Some(Unhex(s)) else None
  }

  /** Reading back the text of an id gives the id. */
  lemma ParseHexString(id: ObjectId)
    ensures Parse(HexString(id)) == Some(id)
  {
    UnhexHex(id);
  }

  /** Distinct ids have distinct texts. */
  lemma HexStringInjective(a: ObjectId, b: ObjectId)
    requires HexString(a) == HexString(b)
    ensures a == b
  {
    ParseHexString(a);
    ParseHexString(b);
  }
}
