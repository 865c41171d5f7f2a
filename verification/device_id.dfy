/**
 * The identifier the firmware derives at boot from the board's unique id
 * (boot.py:38-48): the colon-separated hexadecimal id is read as a number,
 * multiplied by a fixed constant, printed in upper-case hexadecimal, padded
 * or cut to 32 digits, stamped with a '4' and an '8' at two positions and
 * cut into the 8-4-4-4-12 groups of a UUID.
 */
module DeviceId {
  import opened Wrappers

  /** The multiplier: the ASCII codes of "eyasolution" written one after another in decimal. */
  const EYASOLUTION: nat := 10112197115111108117116105111110

  /** Number of digits kept from the hexadecimal product. */
  const BODY_LENGTH: nat := 32

  predicate IsUpperHex(c: char) {
    '0' <= c <= '9' || 'A' <= c <= 'F'
  }

  /** `s.replace(':', '')`. */
  function StripColons(s: string): (r: string)
    ensures |r| <= |s|
    ensures forall i | 0 <= i < |r| :: r[i] != ':'
  {
    if s == [] then []
    else (if s[0] == ':' then [] else [s[0]]) + StripColons(s[1..])
  }

  /** The value of one digit as `int(_, 16)` reads it, in either case. */
  function DigitValue(c: char): (r: Option<nat>)
    ensures r.Some? <==> ('0' <= c <= '9' || 'a' <= c <= 'f' || 'A' <= c <= 'F')
    ensures r.Some? ==> r.value < 16
  {
    if '0' <= c <= '9' then Some(c as int - '0' as int)
    else if 'a' <= c <= 'f' then Some(c as int - 'a' as int + 10)
    else if 'A' <= c <= 'F' then Some(c as int - 'A' as int + 10)
    else None
  }

  /** `int(s, 16)` on a plain digit string; `None` where Python raises `ValueError`. */
  function ParseHex(s: string): (r: Option<nat>)
    ensures r.Some? <==> s != [] && forall i | 0 <= i < |s| :: DigitValue(s[i]).Some?
  {
    if s == [] then None
    else
      var d := DigitValue(s[|s| - 1]);
      var front := s[..|s| - 1];
      if d.None? then None
      else if front == [] then Some(d.value)
      else
        match ParseHex(front)
        case None => None
        case Some(v) => Some(16 * v + d.value)
  }

  /** One digit as `hex()` prints it, in lower case. */
  function Digit(d: nat): (c: char)
    requires d < 16
    ensures '0' <= c <= '9' || 'a' <= c <= 'f'
  {
    if d < 10 then ('0' as int + d) as char else ('a' as int + d - 10) as char
  }

  /** The lower-case hexadecimal digits of `n`, without leading zeros ("0" for zero). */
  function HexDigits(n: nat): (r: string)
    ensures r != []
    ensures forall i | 0 <= i < |r| :: '0' <= r[i] <= '9' || 'a' <= r[i] <= 'f'
  {
    if n < 16 then [Digit(n)]
    else HexDigits(n / 16) + [Digit(n % 16)]
  }

  /** `hex(n)` for a non-negative `n`. */
  function Hex(n: nat): (r: string)
    ensures |r| >= 3 && r[..2] == "0x"
  {
    "0x" + HexDigits(n)
  }

  /** `c.upper()` for one ASCII character. */
  function UpperChar(c: char): (r: char)
    ensures 'a' <= c <= 'z' ==> r as int == c as int - 32
    ensures !('a' <= c <= 'z') ==> r == c
  {
    if 'a' <= c <= 'z' then (c as int - 32) as char else c
  }

  /** `s.upper()` on ASCII text. */
  function Upper(s: string): (r: string)
    ensures |r| == |s|
    ensures forall i | 0 <= i < |s| :: r[i] == UpperChar(s[i])
  {
    seq(|s|, i requires 0 <= i < |s| => UpperChar(s[i]))
  }

  /** `s.ljust(width, fill)`: never shortens `s`. */
  function PadRight(s: string, width: nat, fill: char): (r: string)
    ensures |r| == if |s| >= width then |s| else width
    ensures r[..|s|] == s
    ensures forall i | |s| <= i < |r| :: r[i] == fill
  {
    if |s| >= width then s else s + seq(width - |s|, _ => fill)
  }

  /** `s[:i] + c + s[i+1:]`. */
  function Stamp(s: string, i: nat, c: char): (r: string)
    requires i < |s|
    ensures r == s[i := c]
  {
    s[..i] + [c] + s[i + 1..]
  }

  /** The 32-digit body before the dashes go in (boot.py:41-46). */
  function Body(macNum: nat): (r: string)
  {
    var temp := Upper(Hex(macNum * EYASOLUTION));
    var uuid := PadRight(temp[2..], BODY_LENGTH, '0');
    var uuid := Stamp(uuid, 12, '4');
    Stamp(uuid, 16, '8')
  }

  /** The 8-4-4-4-12 grouping of the first 32 characters of `uuid` (boot.py:48). */
  function Dashed(uuid: string): (r: string)
    requires |uuid| >= BODY_LENGTH
  {
    uuid[..8] + "-" + uuid[8..12] + "-" + uuid[12..16] + "-" + uuid[16..20] + "-" + uuid[20..32]
  }

  /** The identifier boot.py stores in `config.uc_id`, or `None` where `int()` raises. */
  function Uuid(ucId: string): (r: Option<string>)
  {
    match ParseHex(StripColons(ucId))
    case None => None
    case Some(macNum) =>
      Some(Dashed(Body(macNum)))
  }

  /** The position in the 32-character body that position `p` of the dashed form shows. */
  function BodyIndex(p: nat): nat {
    if p < 8 then p
    else if p < 13 then p - 1
    else if p < 18 then p - 2
    else if p < 23 then p - 3
    else p - 4
  }

  predicate IsDash(p: nat) {
    p == 8 || p == 13 || p == 18 || p == 23
  }

  /** The upper-case hexadecimal digits that the body starts from, padded to 32. */
  function PaddedDigits(macNum: nat): string {
    PadRight(Upper(HexDigits(macNum * EYASOLUTION)), BODY_LENGTH, '0')
  }

  // ---------------------------------------------------------------------------
  // Properties
  // ---------------------------------------------------------------------------

  /** Removing colons twice removes nothing more. */
  lemma {:induction false} StripColonsIdempotent(s: string)
    ensures StripColons(StripColons(s)) == StripColons(s)
  {
    if s != [] {
      StripColonsIdempotent(s[1..]);
      StripColonsAppend(if s[0] == ':' then [] else [s[0]], StripColons(s[1..]));
    }
  }

  /** `replace` works character by character, so it distributes over concatenation. */
  lemma {:induction false} StripColonsAppend(a: string, b: string)
    ensures StripColons(a + b) == StripColons(a) + StripColons(b)
  {
    if a != [] {
      assert (a + b)[0] == a[0];
      assert (a + b)[1..] == a[1..] + b;
      StripColonsAppend(a[1..], b);
      var h: string := if a[0] == ':' then [] else [a[0]];
      calc {
        StripColons(a + b);
        h + StripColons(a[1..] + b);
        h + (StripColons(a[1..]) + StripColons(b));
        (h + StripColons(a[1..])) + StripColons(b);
        StripColons(a) + StripColons(b);
      }
    } else {
      assert a + b == b;
    }
  }

  /** Where the colons stand in the id does not change the identifier. */
  lemma ColonsIgnored(a: string, b: string)
    ensures Uuid(a + ":" + b) == Uuid(a + b)
  {
    ColonDropped(a, b);
  }

  lemma ColonDropped(a: string, b: string)
    ensures StripColons(a + ":" + b) == StripColons(a + b)
  {
    StripColonsAppend(a + ":", b);
    StripColonsAppend(a, ":");
    StripColonsAppend(a, b);
    assert StripColons(":") == [];
    assert StripColons(a) + [] == StripColons(a);
  }

  /** The identifier is defined exactly when the id, without colons, is a non-empty hexadecimal string. */
  lemma UuidDefined(ucId: string)
    ensures Uuid(ucId).Some? <==>
      var mac := StripColons(ucId);
      mac != [] && forall i | 0 <= i < |mac| :: DigitValue(mac[i]).Some?
  {
  }

  /** One step of `int(_, 16)`: the last digit is the low nibble of the value. */
  lemma ParseHexAppend(front: string, c: char)
    requires ParseHex(front).Some? && DigitValue(c).Some?
    ensures ParseHex(front + [c]) == Some(16 * ParseHex(front).value + DigitValue(c).value)
  {
    var t := front + [c];
    assert t[..|t| - 1] == front;
  }

  /** `upper()` works character by character. */
  lemma UpperAppend(front: string, c: char)
    ensures Upper(front + [c]) == Upper(front) + [UpperChar(c)]
  {
  }

  /** Reading back the printed digits gives the number. */
  lemma {:induction false} HexRoundTrip(n: nat)
    ensures ParseHex(HexDigits(n)) == Some(n)
  {
    DigitRoundTrip(n % 16);
    if n >= 16 {
      HexRoundTrip(n / 16);
      ParseHexAppend(HexDigits(n / 16), Digit(n % 16));
    }
  }

  /** The same for the upper-case digits that `upper()` leaves: the printed product is the product. */
  lemma {:induction false} UpperHexRoundTrip(n: nat)
    ensures ParseHex(Upper(HexDigits(n))) == Some(n)
  {
    DigitRoundTrip(n % 16);
    if n >= 16 {
      UpperHexRoundTrip(n / 16);
      UpperAppend(HexDigits(n / 16), Digit(n % 16));
      ParseHexAppend(Upper(HexDigits(n / 16)), UpperChar(Digit(n % 16)));
    } else {
      assert Upper(HexDigits(n)) == [UpperChar(Digit(n))];
    }
  }

  lemma DigitRoundTrip(d: nat)
    requires d < 16
    ensures DigitValue(Digit(d)) == Some(d)
    ensures DigitValue(UpperChar(Digit(d))) == Some(d)
  {
  }

  /** `upper()` turns the printed digits into upper-case hexadecimal. */
  lemma UpperDigits(n: nat)
    ensures forall k | 0 <= k < |Upper(HexDigits(n))| :: IsUpperHex(Upper(HexDigits(n))[k])
  {
  }

  /** The printed digits carry no leading zero, so the padding is the only source of trailing filler. */
  lemma {:induction false} NoLeadingZero(n: nat)
    requires n > 0
    ensures HexDigits(n)[0] != '0'
  {
    if n >= 16 {
      NoLeadingZero(n / 16);
    }
  }

  /** The shape of the identifier: 36 characters, dashes at 8, 13, 18 and 23, '4' at 14, '8' at 19, and upper-case hexadecimal everywhere else. */
  lemma UuidLayout(ucId: string)
    requires Uuid(ucId).Some?
    ensures var r := Uuid(ucId).value;
      && |r| == 36
      && (forall p | 0 <= p < 36 :: r[p] == '-' <==> IsDash(p))
      && r[14] == '4' && r[19] == '8'
      && (forall p | 0 <= p < 36 && !IsDash(p) :: IsUpperHex(r[p]))
  {
    var macNum := ParseHex(StripColons(ucId)).value;
    var r := Uuid(ucId).value;
    DashedPositions(Body(macNum));
    BodyDigits(macNum);
  }

  /** Every character of the dashed form outside the dashes is the body character `BodyIndex` names. */
  lemma DashedPositions(uuid: string)
    requires |uuid| >= BODY_LENGTH
    ensures var r := Dashed(uuid);
      && |r| == 36
      && (forall p | 0 <= p < 36 && IsDash(p) :: r[p] == '-')
      && (forall p | 0 <= p < 36 && !IsDash(p) :: BodyIndex(p) < 32 && r[p] == uuid[BodyIndex(p)])
  {
  }

  /** The body is the first 32 padded digits, with '4' at 12 and '8' at 16, all upper-case hexadecimal. */
  lemma BodyDigits(macNum: nat)
    ensures var b := Body(macNum);
      && |b| >= BODY_LENGTH
      && b[12] == '4' && b[16] == '8'
      && (forall k | 0 <= k < BODY_LENGTH && k != 12 && k != 16 :: b[k] == PaddedDigits(macNum)[k])
      && (forall k | 0 <= k < BODY_LENGTH :: IsUpperHex(b[k]))
  {
    BodyFromPadded(macNum);
    UpperDigits(macNum * EYASOLUTION);
  }

  /** The body is the padded digit string with its nibbles 12 and 16 overwritten. */
  lemma BodyFromPadded(macNum: nat)
    ensures |PaddedDigits(macNum)| >= BODY_LENGTH
    ensures Body(macNum) == PaddedDigits(macNum)[12 := '4'][16 := '8']
  {
    assert Upper(Hex(macNum * EYASOLUTION))[2..] == Upper(HexDigits(macNum * EYASOLUTION));
  }

  /** The grouping looks at the first 32 characters only. */
  lemma DashedPrefix(u: string, v: string)
    requires |u| >= BODY_LENGTH && |v| >= BODY_LENGTH
    requires u[..BODY_LENGTH] == v[..BODY_LENGTH]
    ensures Dashed(u) == Dashed(v)
  {
    assert u[..8] == v[..8] && u[8..12] == v[8..12] && u[12..16] == v[12..16];
    assert u[16..20] == v[16..20] && u[20..32] == v[20..32];
  }

  /** Only the first 32 padded digits count: two ids whose padded digits agree there get the same identifier. */
  lemma OnlyBodyCounts(a: string, b: string)
    requires Uuid(a).Some? && Uuid(b).Some?
    requires PaddedDigits(ParseHex(StripColons(a)).value)[..BODY_LENGTH]
          == PaddedDigits(ParseHex(StripColons(b)).value)[..BODY_LENGTH]
    ensures Uuid(a) == Uuid(b)
  {
    var ma := ParseHex(StripColons(a)).value;
    var mb := ParseHex(StripColons(b)).value;
    BodyFromPadded(ma);
    BodyFromPadded(mb);
    var pa := PaddedDigits(ma);
    var pb := PaddedDigits(mb);
    assert forall k | 0 <= k < BODY_LENGTH :: pa[k] == pa[..BODY_LENGTH][k];
    assert forall k | 0 <= k < BODY_LENGTH :: pb[k] == pb[..BODY_LENGTH][k];
    assert Body(ma)[..BODY_LENGTH] == Body(mb)[..BODY_LENGTH];
    DashedPrefix(Body(ma), Body(mb));
  }
}
