/** Callsigns: src/hamstuff/ax25_call.c.

    `Call` is what a call means: the characters before the NUL, the SSID and the repeated mark.
    `CallStruct` is the C structure, a NUL-terminated buffer of seven characters that is filled in place. */
module Ax25Call {
  import opened Bits

  const MAX_CALLSIGN_LEN := 6
  const MAX_SSID_STRING_LEN := 2
  const MAX_CALLSIGN_STRING_LEN := 10

  const NUL: byte := 0
  const SPACE: byte := 0x20
  const STAR: byte := 0x2a
  const DASH: byte := 0x2d
  const ZERO: byte := 0x30
  const NINE: byte := 0x39

  datatype Call = Call(base: seq<byte>, ssid: byte, repeated: byte) {
    predicate WellFormed() {
      && |base| <= MAX_CALLSIGN_LEN
      && (forall i | 0 <= i < |base| :: IsBaseChar(base[i]))
      && ssid <= 15
      && repeated <= 1
    }
  }

  predicate IsBaseChar(c: byte) {
    c < 0x80 && c != NUL && c != SPACE
  }

  /** Where the first NUL is at or after `i`; the end if there is none. */
  function NulAt(s: seq<byte>, i: nat): (r: nat)
    requires i <= |s|
    ensures i <= r <= |s|
    decreases |s| - i
  {
    if i < |s| && s[i] != NUL then NulAt(s, i + 1) else i
  }

  lemma {:induction false} NulAtIs(s: seq<byte>, i: nat, n: nat)
    requires i <= n <= |s| && (forall k | i <= k < n :: s[k] != NUL) && (n < |s| ==> s[n] == NUL)
    ensures NulAt(s, i) == n
    decreases n - i
  {
    if i < n {
      NulAtIs(s, i + 1, n);
    }
  }

  lemma {:induction false} NulAtEnds(s: seq<byte>, i: nat)
    requires i <= |s|
    ensures forall k | i <= k < NulAt(s, i) :: s[k] != NUL
    ensures NulAt(s, i) < |s| ==> s[NulAt(s, i)] == NUL
    decreases |s| - i
  {
    if i < |s| && s[i] != NUL {
      NulAtEnds(s, i + 1);
    }
  }

  /** A C string: the characters before the first NUL, or all of them. */
  function Text(s: seq<byte>): seq<byte> {
    s[..NulAt(s, 0)]
  }

  lemma TextWithoutNul(s: seq<byte>)
    requires NUL !in s
    ensures Text(s) == s
  {
    NulAtIs(s, 0, |s|);
  }

  // ----- the seven address bytes -----

  function Shl1(c: byte): byte {
    c << 1
  }

  function Shr1(c: byte): byte {
    (c >> 1) & 0x7f
  }

  function Ssid(call: Call, isLast: byte): byte {
    0x60 | (call.repeated << 7) | (call.ssid << 1) | isLast
  }

  function PackCall(call: Call, isLast: byte): (r: seq<byte>)
    requires |call.base| <= MAX_CALLSIGN_LEN
    ensures |r| == 7
  {
    seq(6, i requires 0 <= i < 6 => if i < |call.base| then Shl1(call.base[i]) else Shl1(SPACE))
    + [Ssid(call, isLast)]
  }

  /** How many characters come before the first space among the first six. */
  function CharsBeforeSpace(inp: seq<byte>, i: nat): (r: nat)
    requires i <= 6 <= |inp|
    ensures i <= r <= 6
    decreases 6 - i
  {
    if i < 6 && Shr1(inp[i]) != SPACE then CharsBeforeSpace(inp, i + 1) else i
  }

  lemma {:induction false} CharsBeforeSpaceIs(inp: seq<byte>, i: nat, n: nat)
    requires i <= n <= 6 <= |inp|
    requires (forall k | i <= k < n :: Shr1(inp[k]) != SPACE) && (n < 6 ==> Shr1(inp[n]) == SPACE)
    ensures CharsBeforeSpace(inp, i) == n
    decreases n - i
  {
    if i < n {
      CharsBeforeSpaceIs(inp, i + 1, n);
    }
  }

  function Chars(inp: seq<byte>, n: nat): seq<byte>
    requires n <= |inp|
  {
    seq(n, i requires 0 <= i < n => Shr1(inp[i]))
  }

  function UnpackCall(inp: seq<byte>): Call
    requires |inp| >= 7
  {
    Call(Text(Chars(inp, CharsBeforeSpace(inp, 0))), (inp[6] >> 1) & 0x0f, (inp[6] >> 7) & 1)
  }

  function LastMark(inp: seq<byte>): byte
    requires |inp| >= 7
  {
    inp[6] & 1
  }

  lemma CharRoundTrip(c: byte)
    requires c < 0x80
    ensures Shr1(Shl1(c)) == c
  {
  }

  lemma SsidRoundTrip(call: Call, isLast: byte)
    requires call.ssid <= 15 && call.repeated <= 1 && isLast <= 1
    ensures var b := Ssid(call, isLast);
      (b >> 1) & 0x0f == call.ssid && (b >> 7) & 1 == call.repeated && b & 1 == isLast
  {
  }

  lemma UnpackedBytes(c: byte, b: byte)
    ensures Shr1(c) < 0x80 && (b >> 1) & 0x0f <= 15 && (b >> 7) & 1 <= 1
  {
  }

  /** Whatever the seven bytes are, what is unpacked from them is a well-formed call. */
  lemma UnpackedCallWellFormed(inp: seq<byte>)
    requires |inp| >= 7
    ensures UnpackCall(inp).WellFormed()
  {
    var n := CharsBeforeSpace(inp, 0);
    UnpackedBytes(inp[6], inp[6]);
    NulAtEnds(Chars(inp, n), 0);
    forall i | 0 <= i < |UnpackCall(inp).base|
      ensures IsBaseChar(UnpackCall(inp).base[i])
    {
      UnpackedBytes(inp[i], inp[i]);
      NotSpaceBefore(inp, 0, i);
    }
  }

  lemma {:induction false} NotSpaceBefore(inp: seq<byte>, i: nat, k: nat)
    requires i <= 6 <= |inp| && i <= k < CharsBeforeSpace(inp, i)
    ensures Shr1(inp[k]) != SPACE
    decreases 6 - i
  {
    if i == k {
    } else {
      NotSpaceBefore(inp, i + 1, k);
    }
  }

  /** Unpacking a packed call gives it back, with its end-of-address mark. */
  lemma UnpackPackCall(call: Call, isLast: byte)
    requires call.WellFormed() && isLast <= 1
    ensures UnpackCall(PackCall(call, isLast)) == call
    ensures LastMark(PackCall(call, isLast)) == isLast
  {
    var inp := PackCall(call, isLast);
    var n := |call.base|;
    SsidRoundTrip(call, isLast);
    CharRoundTrip(SPACE);
    forall i | 0 <= i < n
      ensures Shr1(inp[i]) == call.base[i]
    {
      CharRoundTrip(call.base[i]);
    }
    CharsBeforeSpaceIs(inp, 0, n);
    assert Chars(inp, n) == call.base;
    TextWithoutNul(call.base);
  }

  // ----- the address bytes as numbers -----

  lemma ShiftedValue(c: byte)
    ensures Shl1(c) as int == 2 * (c as int) % 256
    ensures Shr1(c) as int == c as int / 2
  {
  }

  lemma SsidValue(call: Call, isLast: byte)
    requires call.ssid <= 15 && call.repeated <= 1 && isLast <= 1
    ensures Ssid(call, isLast) as int == 96 + 128 * (call.repeated as int) + 2 * (call.ssid as int) + isLast as int
  {
  }

  /** The characters shifted left by one, shifted spaces up to six, and the SSID byte with its two marks. */
  lemma PackedCallBytes(call: Call, isLast: byte)
    requires call.WellFormed() && isLast <= 1
    ensures |PackCall(call, isLast)| == 7
    ensures forall k | 0 <= k < 6 ::
              PackCall(call, isLast)[k] as int == if k < |call.base| then 2 * (call.base[k] as int) else 0x40
    ensures PackCall(call, isLast)[6] as int ==
            96 + 128 * (call.repeated as int) + 2 * (call.ssid as int) + isLast as int
  {
    SsidValue(call, isLast);
    forall k | 0 <= k < 6
      ensures PackCall(call, isLast)[k] as int == if k < |call.base| then 2 * (call.base[k] as int) else 0x40
    {
      if k < |call.base| {
        PackedChar(call.base[k]);
      } else {
        PackedChar(SPACE);
      }
    }
  }

  lemma PackedChar(c: byte)
    requires c < 0x80
    ensures Shl1(c) as int == 2 * (c as int)
  {
    ShiftedValue(c);
  }

  lemma MarkValues(b: byte)
    ensures ((b >> 7) & 1) as int == b as int / 128
    ensures (b & 1) as int == b as int % 2
  {
  }

  lemma LowFour(b: byte)
    ensures (b & 0x0f) as int == b as int % 16
  {
  }

  lemma HalfValue(b: byte)
    ensures (b >> 1) as int == b as int / 2
  {
  }

  lemma SsidField(b: byte)
    ensures ((b >> 1) & 0x0f) as int == b as int / 2 % 16
  {
    HalfValue(b);
    LowFour(b >> 1);
  }

  /** Unpacking halves the characters, up to the first space or NUL among six, and takes the SSID byte apart. */
  lemma UnpackedCallFields(inp: seq<byte>, call: Call)
    requires |inp| >= 7 && call == UnpackCall(inp)
    ensures |call.base| <= 6
    ensures forall k | 0 <= k < |call.base| ::
              call.base[k] as int == inp[k] as int / 2 && call.base[k] != 0 && call.base[k] != 0x20
    ensures |call.base| < 6 ==> inp[|call.base|] as int / 2 == 0 || inp[|call.base|] as int / 2 == 0x20
    ensures call.ssid as int == inp[6] as int / 2 % 16 && call.repeated as int == inp[6] as int / 128
    ensures LastMark(inp) as int == inp[6] as int % 2
  {
    var n := CharsBeforeSpace(inp, 0);
    MarkValues(inp[6]);
    SsidField(inp[6]);
    NulAtEnds(Chars(inp, n), 0);
    forall k | 0 <= k < 6
      ensures Shr1(inp[k]) as int == inp[k] as int / 2
    {
      ShiftedValue(inp[k]);
    }
    SpaceAfter(inp, 0);
    forall k | 0 <= k < |call.base|
      ensures call.base[k] != SPACE
    {
      NotSpaceBefore(inp, 0, k);
    }
  }

  lemma {:induction false} SpaceAfter(inp: seq<byte>, i: nat)
    requires i <= 6 <= |inp|
    ensures CharsBeforeSpace(inp, i) < 6 ==> Shr1(inp[CharsBeforeSpace(inp, i)]) == SPACE
    decreases 6 - i
  {
    if i < 6 && Shr1(inp[i]) != SPACE {
      SpaceAfter(inp, i + 1);
    }
  }

  // ----- the printed form -----

  function Tens(ssid: byte): byte {
    ZERO + ssid / 10
  }

  function Units(ssid: byte): byte {
    ZERO + ssid % 10
  }

  function SsidDigits(ssid: byte): seq<byte> {
    if ssid >= 10 then [Tens(ssid), Units(ssid)] else [Units(ssid)]
  }

  function SsidText(ssid: byte): seq<byte> {
    if ssid == 0 then [] else [DASH] + SsidDigits(ssid)
  }

  function RepeatedText(repeated: byte): seq<byte> {
    if repeated == 0 then [] else [STAR]
  }

  function Suffix(ssid: byte, repeated: byte): seq<byte> {
    SsidText(ssid) + RepeatedText(repeated)
  }

  function PrintCall(call: Call): (r: seq<byte>)
    requires |call.base| <= MAX_CALLSIGN_LEN
    ensures |call.base| <= |r| <= MAX_CALLSIGN_STRING_LEN
  {
    call.base + Suffix(call.ssid, call.repeated)
  }

  function BaseEnd(t: seq<byte>, i: nat): (r: nat)
    requires i <= |t| && i <= 6
    ensures i <= r <= |t| && r <= 6
    decreases |t| - i
  {
    if i < MAX_CALLSIGN_LEN && i < |t| && t[i] != DASH then BaseEnd(t, i + 1) else i
  }

  lemma {:induction false} BaseEndIs(t: seq<byte>, i: nat, n: nat)
    requires i <= n <= |t| && n <= 6
    requires (forall k | i <= k < n :: t[k] != DASH) && (n < 6 && n < |t| ==> t[n] == DASH)
    ensures BaseEnd(t, i) == n
    decreases n - i
  {
    if i < n {
      BaseEndIs(t, i + 1, n);
    }
  }

  predicate IsDigit(c: byte) {
    ZERO <= c <= NINE
  }

  /** How many digits, at most two, start at `i`. */
  function DigitCount(t: seq<byte>, i: nat): (n: nat)
    ensures n <= MAX_SSID_STRING_LEN && (n > 0 ==> i + n <= |t|)
  {
    if i >= |t| || !IsDigit(t[i]) then 0
    else if i + 1 >= |t| || !IsDigit(t[i + 1]) then 1
    else 2
  }

  /** One more digit, modulo 256 as in the C code. */
  function Digit(value: byte, c: byte): byte {
    value * 10 + (c - ZERO)
  }

  function Decimal(d: seq<byte>): byte
    requires |d| <= MAX_SSID_STRING_LEN
  {
    if |d| == 0 then 0
    else if |d| == 1 then Digit(0, d[0])
    else Digit(Digit(0, d[0]), d[1])
  }

  function ParseCall(t: seq<byte>): Call {
    var i := BaseEnd(t, 0);
    var n := if i < |t| && t[i] == DASH then DigitCount(t, i + 1) else 0;
    var j := if i < |t| && t[i] == DASH then i + 1 + n else i;
    Call(t[..i],
         if i < |t| && t[i] == DASH then Decimal(t[i + 1..i + 1 + n]) else 0,
         if j < |t| && t[j] == STAR then 1 else 0)
  }

  lemma DigitValues(ssid: byte)
    requires ssid <= 99
    ensures IsDigit(Tens(ssid)) && IsDigit(Units(ssid))
    ensures Digit(Digit(0, Tens(ssid)), Units(ssid)) == ssid
    ensures ssid < 10 ==> Digit(0, Units(ssid)) == ssid && Units(ssid) == ZERO + ssid
  {
  }

  lemma SsidDecimal(ssid: byte)
    requires ssid <= 99
    ensures Decimal(SsidDigits(ssid)) == ssid
  {
    DigitValues(ssid);
  }

  lemma TwoDigits(c: byte, d: byte)
    requires IsDigit(c) && IsDigit(d)
    ensures Digit(0, c) <= 9 && Digit(Digit(0, c), d) <= 99
  {
  }

  /** No text is parsed as an SSID of more than two digits, or as more than a mark. */
  lemma ParsedRange(t: seq<byte>)
    ensures ParseCall(t).ssid <= 99 && ParseCall(t).repeated <= 1
  {
    var i := BaseEnd(t, 0);
    var n := if i < |t| && t[i] == DASH then DigitCount(t, i + 1) else 0;
    if n > 0 {
      TwoDigits(t[i + 1], t[i + n]);
    }
  }

  /** Printing and parsing give a call back exactly when its base has no separator in it, its SSID has at most
      two digits, its mark is a truth value, and it is not a repeated call without SSID whose base leaves room
      for the mark to be read as one more letter. */
  lemma ParsePrintCall(call: Call)
    requires |call.base| <= MAX_CALLSIGN_LEN
    ensures ParseCall(PrintCall(call)) == call <==>
            DASH !in call.base && call.ssid <= 99 && call.repeated <= 1
            && !(call.repeated == 1 && call.ssid == 0 && |call.base| < MAX_CALLSIGN_LEN)
  {
    var t, n := PrintCall(call), |call.base|;
    assert t[..n] == call.base;
    ParsedRange(t);
    if call.ssid > 99 || call.repeated > 1 {
    } else if DASH !in call.base {
      assert forall k | 0 <= k < n :: t[k] != DASH;
      if call.ssid != 0 {
        PrintedWithSsid(call);
      } else {
        PrintedWithoutSsid(call);
      }
    } else {
      var d := FirstDash(call.base, 0);
      BaseEndIs(t, 0, d);
    }
  }

  /** The call AB, repeated, without SSID: it is printed as AB* and parsed as a call with the base AB*. */
  lemma MarkBecomesLetter(a: byte, b: byte)
    requires IsBaseChar(a) && IsBaseChar(b) && a != DASH && b != DASH
    ensures Call([a, b], 0, 1).WellFormed()
    ensures ParseCall(PrintCall(Call([a, b], 0, 1))) == Call([a, b, STAR], 0, 0)
  {
    var t := PrintCall(Call([a, b], 0, 1));
    assert t == [a, b, STAR];
    BaseEndIs(t, 0, 3);
  }

  function FirstDash(s: seq<byte>, i: nat): (d: nat)
    requires i <= |s| && DASH in s[i..]
    ensures i <= d < |s| && s[d] == DASH && forall k | i <= k < d :: s[k] != DASH
    decreases |s| - i
  {
    if s[i] == DASH then i else FirstDash(s, i + 1)
  }

  lemma ParseParts(t: seq<byte>, base: seq<byte>, d: seq<byte>, r: seq<byte>)
    requires t == base + ([DASH] + (d + r))
    requires |base| <= MAX_CALLSIGN_LEN && DASH !in base
    requires 1 <= |d| <= 2 && (forall k | 0 <= k < |d| :: IsDigit(d[k]))
    requires r == [] || r == [STAR]
    ensures ParseCall(t) == Call(base, Decimal(d), if r == [] then 0 else 1)
  {
    var n := |base|;
    assert forall k | 0 <= k < n :: t[k] == base[k];
    BaseEndIs(t, 0, n);
    assert t[..n] == base;
    assert t[n + 1..n + 1 + |d|] == d;
    assert t[n + 1] == d[0] && (|d| == 2 ==> t[n + 2] == d[1]);
    assert r == [STAR] ==> t[n + 1 + |d|] == STAR;
    assert DigitCount(t, n + 1) == |d|;
  }

  lemma PrintedWithSsid(call: Call)
    requires |call.base| <= MAX_CALLSIGN_LEN && 0 < call.ssid <= 99 && call.repeated <= 1
    requires DASH !in call.base
    ensures ParseCall(PrintCall(call)) == call
  {
    var d, r := SsidDigits(call.ssid), RepeatedText(call.repeated);
    DigitValues(call.ssid);
    SsidDecimal(call.ssid);
    assert PrintCall(call) == call.base + (([DASH] + d) + r);
    Assoc([DASH], d, r);
    ParseParts(PrintCall(call), call.base, d, r);
  }

  lemma PrintedWithoutSsid(call: Call)
    requires |call.base| <= MAX_CALLSIGN_LEN && call.ssid == 0 && call.repeated <= 1
    requires DASH !in call.base
    ensures ParseCall(PrintCall(call)) == call <==> call.repeated == 0 || |call.base| == MAX_CALLSIGN_LEN
  {
    var t, n := PrintCall(call), |call.base|;
    assert forall k | 0 <= k < n :: t[k] == call.base[k];
    assert DASH !in t;
    BaseEndIs(t, 0, if |t| < 6 then |t| else 6);
  }

  lemma TensValue(ssid: byte)
    ensures Tens(ssid) as int == 0x30 + ssid as int / 10
  {
  }

  lemma UnitsValue(ssid: byte)
    ensures Units(ssid) as int == 0x30 + ssid as int % 10
  {
  }

  /** The printed form in characters: the base, a dash and the SSID in decimal unless it is 0, a star if repeated. */
  lemma PrintedCall(call: Call, t: seq<byte>, n: nat, m: nat)
    requires |call.base| <= MAX_CALLSIGN_LEN && t == PrintCall(call)
    requires n == |call.base| && m == (if call.ssid == 0 then 0 else if call.ssid < 10 then 2 else 3)
    ensures |t| == n + m + (if call.repeated == 0 then 0 else 1)
    ensures t[..n] == call.base
    ensures m > 0 ==> t[n] == 0x2d && t[n + m - 1] as int == 0x30 + call.ssid as int % 10
    ensures m == 3 ==> t[n + 1] as int == 0x30 + call.ssid as int / 10
    ensures call.repeated != 0 ==> t[n + m] == 0x2a
  {
    TensValue(call.ssid);
    UnitsValue(call.ssid);
  }

  predicate DigitAt(t: seq<byte>, i: nat) {
    i < |t| && 0x30 <= t[i] <= 0x39
  }

  lemma DigitMeans(value: byte, c: byte)
    requires value <= 9 && 0x30 <= c <= 0x39
    ensures Digit(value, c) as int == 10 * (value as int) + (c as int - 0x30)
  {
  }

  lemma DecimalValue(d: seq<byte>)
    requires 1 <= |d| <= 2 && (forall k | 0 <= k < |d| :: 0x30 <= d[k] <= 0x39)
    ensures Decimal(d) as int ==
            if |d| == 1 then d[0] as int - 0x30 else 10 * (d[0] as int - 0x30) + (d[1] as int - 0x30)
  {
    DigitMeans(0, d[0]);
    if |d| == 2 {
      DigitMeans(Digit(0, d[0]), d[1]);
    }
  }

  /** What is read from any text: the base ends at the first dash, the sixth character or the end; after a dash
      come at most two digits, `n` of them; a star right behind is the repeated mark. */
  lemma ParsedCall(t: seq<byte>, call: Call, i: nat) returns (n: nat)
    requires call == ParseCall(t) && i == |call.base|
    ensures i <= 6 && i <= |t| && call.base == t[..i] && 0x2d !in call.base
    ensures i < 6 && i < |t| ==> t[i] == 0x2d
    ensures n <= 2 && (n >= 1 ==> DigitAt(t, i + 1)) && (n == 2 ==> DigitAt(t, i + 2))
    ensures n < 2 ==> !DigitAt(t, i + 1 + n)
    ensures i < |t| && t[i] == 0x2d ==>
      && call.ssid as int == (if n == 0 then 0 else if n == 1 then t[i + 1] as int - 0x30
                              else 10 * (t[i + 1] as int - 0x30) + (t[i + 2] as int - 0x30))
      && call.repeated == if i + 1 + n < |t| && t[i + 1 + n] == 0x2a then 1 else 0
    ensures !(i < |t| && t[i] == 0x2d) ==>
      call.ssid == 0 && call.repeated == if i < |t| && t[i] == 0x2a then 1 else 0
  {
    BaseEndStops(t, 0);
    n := DigitCount(t, i + 1);
    if i < |t| && t[i] == 0x2d {
      ParsedSsid(t, i, n);
    }
  }

  lemma ParsedSsid(t: seq<byte>, i: nat, n: nat)
    requires i < |t| && n == DigitCount(t, i + 1)
    ensures Decimal(t[i + 1..i + 1 + n]) as int ==
            if n == 0 then 0 else if n == 1 then t[i + 1] as int - 0x30
            else 10 * (t[i + 1] as int - 0x30) + (t[i + 2] as int - 0x30)
  {
    if n > 0 {
      DecimalValue(t[i + 1..i + 1 + n]);
    }
  }

  lemma {:induction false} BaseEndStops(t: seq<byte>, i: nat)
    requires i <= |t| && i <= 6
    ensures forall k | i <= k < BaseEnd(t, i) :: t[k] != DASH
    ensures BaseEnd(t, i) < 6 && BaseEnd(t, i) < |t| ==> t[BaseEnd(t, i)] == DASH
    decreases |t| - i
  {
    if i < MAX_CALLSIGN_LEN && i < |t| && t[i] != DASH {
      BaseEndStops(t, i + 1);
    }
  }

  // ----- the structure -----

  /** hs_ax25_call: `base` holds the characters and their NUL. */
  class CallStruct {
    const base: array<byte>
    var ssid: byte
    var isRepeated: byte

    ghost predicate Valid()
      reads this, base
    {
      base.Length == MAX_CALLSIGN_LEN + 1 && NUL in base[..]
    }

    function Value(): Call
      reads this, base
    {
      Call(Text(base[..]), ssid, isRepeated)
    }

    /** hs_ax25_call_init. */
    constructor ()
      ensures Valid() && fresh(base) && Value() == Call([], 0, 0)
    {
      var b := new byte[MAX_CALLSIGN_LEN + 1];
      b[0] := NUL;
      base := b;
      ssid := 0;
      isRepeated := 0;
      new;
      assert base[..][0] == NUL;
    }

    /** The buffer holds exactly `name`. */
    ghost predicate Spells(name: seq<byte>)
      reads base
    {
      && base.Length == MAX_CALLSIGN_LEN + 1 && |name| <= MAX_CALLSIGN_LEN
      && base[|name|] == NUL
      && (forall k | 0 <= k < |name| :: base[k] == name[k] && name[k] != NUL)
    }

    lemma SpellsItsText()
      requires Valid()
      ensures Spells(Text(base[..]))
    {
      TextEnds(base[..]);
    }

    /** hs_ax25_call_pack: seven bytes at `at`, the rest of `out` untouched. */
    method Pack(out: array<byte>, at: nat, isLast: byte)
      requires Valid() && out != base && at + 7 <= out.Length
      modifies out
      ensures |Value().base| <= MAX_CALLSIGN_LEN
      ensures out[at..at + 7] == PackCall(Value(), isLast)
      ensures forall k | 0 <= k < out.Length && !(at <= k < at + 7) :: out[k] == old(out[k])
    {
      SpellsItsText();
      ghost var name := Value().base;
      PutName(out, at, name);
      var mark := 0x60;
      mark := mark | (isRepeated << 7);
      mark := mark | (ssid << 1);
      mark := mark | isLast;
      out[at + MAX_CALLSIGN_LEN] := mark;
    }

    /** The first two loops of hs_ax25_call_pack: the shifted name, padded with shifted spaces. */
    method PutName(out: array<byte>, at: nat, ghost name: seq<byte>)
      requires Spells(name) && out != base && at + 7 <= out.Length
      modifies out
      ensures forall k | at <= k < at + 6 :: out[k] == if k - at < |name| then Shl1(name[k - at]) else Shl1(SPACE)
      ensures forall k | 0 <= k < out.Length && !(at <= k < at + 6) :: out[k] == old(out[k])
    {
      var i := 0;
      while base[i] != NUL
        invariant i <= |name|
        invariant forall k | at <= k < at + i :: out[k] == Shl1(name[k - at])
        invariant forall k | 0 <= k < out.Length && !(at <= k < at + 6) :: out[k] == old(out[k])
        decreases |name| - i
      {
        out[at + i] := Shl1(base[i]);
        i := i + 1;
      }
      while i < MAX_CALLSIGN_LEN
        invariant |name| <= i <= 6
        invariant forall k | at <= k < at + i :: out[k] == if k - at < |name| then Shl1(name[k - at]) else Shl1(SPACE)
        invariant forall k | 0 <= k < out.Length && !(at <= k < at + 6) :: out[k] == old(out[k])
      {
        out[at + i] := Shl1(SPACE);
        i := i + 1;
      }
    }

    /** hs_ax25_call_unpack. */
    method Unpack(inp: seq<byte>) returns (isLast: byte)
      requires Valid() && |inp| >= 7
      modifies this, base
      ensures Valid() && Value() == UnpackCall(inp) && isLast == LastMark(inp)
    {
      UnpackName(inp);
      isRepeated := (inp[MAX_CALLSIGN_LEN] >> 7) & 1;
      ssid := (inp[MAX_CALLSIGN_LEN] >> 1) & 0x0f;
      isLast := inp[MAX_CALLSIGN_LEN] & 1;
    }

    /** The loop of hs_ax25_call_unpack. */
    method UnpackName(inp: seq<byte>)
      requires Valid() && |inp| >= 7
      modifies base
      ensures Valid() && Text(base[..]) == Text(Chars(inp, CharsBeforeSpace(inp, 0)))
    {
      var i := 0;
      while i < MAX_CALLSIGN_LEN
        invariant i <= 6
        invariant CharsBeforeSpace(inp, 0) == CharsBeforeSpace(inp, i)
        invariant forall k | 0 <= k < i :: base[k] == Shr1(inp[k])
      {
        base[i] := Shr1(inp[i]);
        if base[i] == SPACE {
          break;
        }
        i := i + 1;
      }
      assert CharsBeforeSpace(inp, i) == i;
      base[i] := NUL;
      NameEnds(Chars(inp, i), i);
      assert Chars(inp, i)[..i] == Chars(inp, i);
    }

    /** The buffer holds `n` characters of `t`, and then a NUL. */
    lemma NameEnds(t: seq<byte>, n: nat)
      requires base.Length == 7 && n < 7 && n <= |t|
      requires base[n] == NUL && forall k | 0 <= k < n :: base[k] == t[k]
      ensures NUL in base[..] && Text(base[..]) == Text(t[..n])
    {
      assert base[..][n] == NUL;
      assert base[..][..n] == t[..n];
      TextOfPrefix(base[..], n);
    }

    /** hs_ax25_call_to_str: the printed call and its NUL at `at`; the NUL is not counted. */
    method ToStr(out: array<byte>, at: nat) returns (length: nat)
      requires Valid() && out != base && at + MAX_CALLSIGN_STRING_LEN < out.Length
      modifies out
      ensures |Value().base| <= MAX_CALLSIGN_LEN
      ensures length == |PrintCall(Value())|
      ensures forall k | at <= k < at + length :: out[k] == PrintCall(Value())[k - at]
      ensures out[at + length] == NUL
      ensures forall k | 0 <= k < at :: out[k] == old(out[k])
    {
      SpellsItsText();
      ghost var name, suffix := Value().base, Suffix(ssid, isRepeated);
      var i := CopyName(out, at, name);
      length := PutSuffix(out, at + i);
      length := i + length;
      out[at + length] := NUL;
      forall k | at <= k < at + length
        ensures out[k] == (name + suffix)[k - at]
      {
        assert k < at + i || out[k] == suffix[k - at - i];
      }
    }

    /** The first loop of hs_ax25_call_to_str. */
    method CopyName(out: array<byte>, at: nat, ghost name: seq<byte>) returns (i: nat)
      requires Spells(name) && out != base && at + 7 <= out.Length
      modifies out
      ensures i == |name|
      ensures forall k | at <= k < at + i :: out[k] == name[k - at]
      ensures forall k | 0 <= k < at :: out[k] == old(out[k])
    {
      i := 0;
      while i < MAX_CALLSIGN_LEN && base[i] != NUL
        invariant i <= |name|
        invariant forall k | at <= k < at + i :: out[k] == name[k - at]
        invariant forall k | 0 <= k < at :: out[k] == old(out[k])
        decreases |name| - i
      {
        out[at + i] := base[i];
        i := i + 1;
      }
    }

    /** The rest of hs_ax25_call_to_str: the SSID and the repeated mark, if any. */
    method PutSuffix(out: array<byte>, at: nat) returns (length: nat)
      requires out != base && at + 4 <= out.Length
      modifies out
      ensures length == |Suffix(ssid, isRepeated)|
      ensures forall k | at <= k < at + length :: out[k] == Suffix(ssid, isRepeated)[k - at]
      ensures forall k | 0 <= k < at :: out[k] == old(out[k])
    {
      length := PutSsid(out, at);
      if isRepeated != 0 {
        out[at + length] := STAR;
        length := length + 1;
      }
    }

    method PutSsid(out: array<byte>, at: nat) returns (length: nat)
      requires out != base && at + 3 <= out.Length
      modifies out
      ensures length == |SsidText(ssid)|
      ensures forall k | at <= k < at + length :: out[k] == SsidText(ssid)[k - at]
      ensures forall k | 0 <= k < at :: out[k] == old(out[k])
    {
      length := 0;
      if ssid != 0 {
        out[at] := DASH;
        if ssid >= 10 {
          out[at + 1] := Tens(ssid);
          out[at + 2] := Units(ssid);
          length := 3;
        } else {
          DigitValues(ssid);
          out[at + 1] := ZERO + ssid;
          length := 2;
        }
      }
    }

    /** hs_ax25_call_from_str on a NUL-terminated string. */
    method FromStr(str: seq<byte>)
      requires Valid() && NUL in str
      modifies this, base
      ensures Valid() && Value() == ParseCall(Text(str))
    {
      TextEnds(str);
      var i := ReadName(str);
      ssid := 0;
      if i < MAX_CALLSIGN_STRING_LEN && str[i] == DASH {
        i := ReadSsid(str, i + 1);
      }
      isRepeated := if i < MAX_CALLSIGN_STRING_LEN && str[i] == STAR then 1 else 0;
    }

    /** The first loop of hs_ax25_call_from_str. */
    method ReadName(str: seq<byte>) returns (i: nat)
      requires Valid() && NUL in str
      modifies base
      ensures i == BaseEnd(Text(str), 0)
      ensures Valid() && Text(base[..]) == Text(str)[..i]
    {
      ghost var t := Text(str);
      TextEnds(str);
      i := 0;
      while i < MAX_CALLSIGN_LEN && str[i] != NUL && str[i] != DASH
        invariant i <= 6 && i <= |t|
        invariant BaseEnd(t, 0) == BaseEnd(t, i)
        invariant forall k | 0 <= k < i :: base[k] == t[k]
        decreases 6 - i
      {
        base[i] := str[i];
        i := i + 1;
      }
      base[i] := NUL;
      NameEnds(t, i);
      TextWithoutNul(t[..i]);
    }

    /** The SSID part of hs_ax25_call_from_str: up to two digits at `from`. */
    method ReadSsid(str: seq<byte>, from: nat) returns (i: nat)
      requires NUL in str && from <= |Text(str)|
      requires ssid == 0
      modifies this`ssid
      ensures i == from + DigitCount(Text(str), from) <= |Text(str)|
      ensures ssid == Decimal(Text(str)[from..i])
    {
      ghost var t := Text(str);
      TextEnds(str);
      i := from;
      var j := 0;
      while ZERO <= str[i] && str[i] <= NINE && j < MAX_SSID_STRING_LEN
        invariant i == from + j <= |t| && j <= DigitCount(t, from)
        invariant ssid == Decimal(t[from..i])
        decreases 2 - j
      {
        ssid := Digit(ssid, str[i]);
        i := i + 1;
        j := j + 1;
      }
    }
  }

  lemma TextOfPrefix(s: seq<byte>, n: nat)
    requires n < |s| && s[n] == NUL
    ensures Text(s) == Text(s[..n])
  {
    var m := NulAt(s[..n], 0);
    NulAtEnds(s[..n], 0);
    assert forall k | 0 <= k < m :: s[k] == s[..n][k];
    NulAtIs(s, 0, m);
  }

  lemma TextEnds(s: seq<byte>)
    requires NUL in s
    ensures |Text(s)| < |s| && s[|Text(s)|] == NUL && NUL !in Text(s)
    ensures forall k | 0 <= k < |Text(s)| :: Text(s)[k] == s[k] && s[k] != NUL
  {
    NulAtEnds(s, 0);
  }
}
