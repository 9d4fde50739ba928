/**
 The webhook signature header of webhook/webhook.go.  The MAC is a function given from
 outside (HMAC with SHA-256, section 2 of RFC 2104): a key and a message to 32 bytes.
 Durations and the current time are in nanoseconds, header timestamps in seconds.
 */
module Webhook {
  import opened Wrappers
  import Decimal
  import Text

  type Byte = b: int | 0 <= b < 256

  type Mac = (string, string) -> seq<Byte>

  datatype Error = InvalidSecret | InvalidSignature | TimestampSkew

  const DIGEST_SIZE := 32
  const SECOND: int := 1_000_000_000

  // ---------- Hexadecimal ----------

  function HexDigit(n: int): char
    requires 0 <= n < 16
  {
    if n < 10 then '0' + n as char else 'a' + (n - 10) as char
  }

  function HexEncode(bytes: seq<Byte>): string {
    if bytes == [] then [] else [HexDigit(bytes[0] / 16), HexDigit(bytes[0] % 16)] + HexEncode(bytes[1..])
  }

  // What hex.DecodeString accepts.
  predicate HexText(s: string) {
    |s| % 2 == 0 && forall i | 0 <= i < |s| :: Text.IsHexDigit(s[i])
  }

  lemma {:induction false} HexEncodes(bytes: seq<Byte>)
    ensures |HexEncode(bytes)| == 2 * |bytes| && HexText(HexEncode(bytes))
  {
    if bytes != [] {
      HexEncodes(bytes[1..]);
    }
  }

  // The lower-case hexadecimal digit of a half byte.
  predicate IsNibble(c: char, n: int) {
    0 <= n < 16 && c == "0123456789abcdef"[n]
  }

  lemma NibbleOf(n: int)
    requires 0 <= n < 16
    ensures IsNibble(HexDigit(n), n)
  {
  }

  /** The digits of byte i are the i-th pair, high half first, in lower case. */
  lemma {:induction false} HexDigits(bytes: seq<Byte>, i: nat)
    requires i < |bytes|
    ensures
      var s := HexEncode(bytes);
      && |s| == 2 * |bytes|
      && IsNibble(s[2 * i], bytes[i] / 16) && IsNibble(s[2 * i + 1], bytes[i] % 16)
  {
    HexEncodes(bytes);
    if i == 0 {
      NibbleOf(bytes[0] / 16);
      NibbleOf(bytes[0] % 16);
    } else {
      HexDigits(bytes[1..], i - 1);
      assert HexEncode(bytes)[2..] == HexEncode(bytes[1..]);
    }
  }

  lemma {:induction false} HexInjective(a: seq<Byte>, b: seq<Byte>)
    requires HexEncode(a) == HexEncode(b)
    ensures a == b
  {
    HexEncodes(a);
    HexEncodes(b);
    if a != [] {
      assert HexEncode(a)[0] == HexEncode(b)[0] && HexEncode(a)[1] == HexEncode(b)[1];
      assert HexEncode(a)[2..] == HexEncode(a[1..]) && HexEncode(b)[2..] == HexEncode(b[1..]);
      HexInjective(a[1..], b[1..]);
      assert a == [a[0]] + a[1..] && b == [b[0]] + b[1..];
    }
  }

  // ---------- Signing ----------

  function MacInput(timestamp: int, payload: string): string {
    Decimal.PrintInt(timestamp) + "." + payload
  }

  /** The MAC input determines timestamp and payload. */
  lemma MacInputInjective(t1: int, p1: string, t2: int, p2: string)
    ensures MacInput(t1, p1) == MacInput(t2, p2) <==> t1 == t2 && p1 == p2
  {
    if MacInput(t1, p1) == MacInput(t2, p2) {
      Decimal.PrintIntAvoids(t1, '.');
      Decimal.PrintIntAvoids(t2, '.');
      Text.HeadUnique(Decimal.PrintInt(t1), p1, Decimal.PrintInt(t2), p2, '.');
      Decimal.PrintIntInjective(t1, t2);
    }
  }

  function ComputeSignature(mac: Mac, secret: string, timestamp: int, payload: string): string {
    HexEncode(mac(secret, MacInput(timestamp, payload)))
  }

  function SignHeader(mac: Mac, secret: string, timestamp: int, payload: string): Result<string, Error> {
    if Text.TrimSpace(secret) == "" then Err(InvalidSecret)
    else Ok("t=" + Decimal.PrintInt(timestamp) + ",v1=" + ComputeSignature(mac, secret, timestamp, payload))
  }

  /** The text under the MAC is the decimal timestamp up to the first full stop, then the payload. */
  lemma MacInputForm(timestamp: int, payload: string)
    ensures
      var s := MacInput(timestamp, payload);
      var dot := Text.IndexByte(s, '.');
      dot >= 0 && s[..dot] == Decimal.PrintInt(timestamp) && s[dot + 1..] == payload
  {
    Decimal.PrintIntAvoids(timestamp, '.');
    Text.CutAtFirst(Decimal.PrintInt(timestamp), payload, '.');
  }

  // ---------- Parsing ----------

  // What one comma-separated part is to the parser.
  datatype Field = Time(t: int) | BadTime | Sig(sig: string) | Other

  function Classify(part: string): Field {
    var p := Text.TrimSpace(part);
    if Text.HasPrefix(p, "t=") then
      var t := Decimal.ParseInt64(p[2..]);
      if t.None? || t.value <= 0 then BadTime else Time(t.value)
    else if Text.HasPrefix(p, "v1=") then Sig(p[3..])
    else Other
  }

  /**
   Up to blank text around it, a part is a signature exactly when it is "v1=" and that
   signature, and a timestamp exactly when it is "t=" and text that parses to it, positive.
   */
  lemma ClassifiesExactly(part: string, t: int, sig: string)
    ensures Classify(part) == Sig(sig) <==> Text.TrimSpace(part) == "v1=" + sig
    ensures Classify(part) == Time(t) <==>
            t > 0 && exists n :: Text.TrimSpace(part) == "t=" + n && Decimal.ParseInt64(n) == Some(t)
    ensures Classify(part) == BadTime <==>
            "t=" <= Text.TrimSpace(part) && forall v | v > 0 :: Decimal.ParseInt64(Text.TrimSpace(part)[2..]) != Some(v)
  {
    var p := Text.TrimSpace(part);
    if "t=" <= p {
      assert p == "t=" + p[2..] && p[0] == 't';
      assert forall n :: p == "t=" + n ==> n == p[2..];
    }
    if p == "v1=" + sig {
      assert p[0] == 'v' && p[3..] == sig;
    }
  }

  function Fields(header: string): (fields: seq<Field>)
    ensures forall i | 0 <= i < |fields| && fields[i].Time? :: fields[i].t > 0
  {
    var parts := Text.Split(header, ',');
    seq(|parts|, i requires 0 <= i < |parts| => Classify(parts[i]))
  }

  // The last timestamp, zero when there is none; None when some timestamp is bad.
  function Timestamp(fields: seq<Field>): Option<int> {
    if fields == [] then Some(0)
    else
      var before, last := Timestamp(fields[..|fields| - 1]), fields[|fields| - 1];
      if before.None? || last.BadTime? then None else if last.Time? then Some(last.t) else before
  }

  // The last signature, empty when there is none.
  function Signature(fields: seq<Field>): string {
    if fields == [] then ""
    else
      var last := fields[|fields| - 1];
      if last.Sig? then last.sig else Signature(fields[..|fields| - 1])
  }

  function Parsed(header: string): Result<(int, string), Error> {
    var t, sig := Timestamp(Fields(header)), Signature(Fields(header));
    if t.None? || t.value == 0 || sig == "" || !HexText(sig) then Err(InvalidSignature) else Ok((t.value, sig))
  }

  lemma {:induction false} BadTimeStays(fields: seq<Field>, k: nat)
    requires k <= |fields| && Timestamp(fields[..k]).None?
    ensures Timestamp(fields).None?
    decreases |fields| - k
  {
    if k == |fields| {
      assert fields[..k] == fields;
    } else {
      assert fields[..k + 1][..k] == fields[..k];
      BadTimeStays(fields, k + 1);
    }
  }

  method ParseHeader(header: string) returns (r: Result<(int, string), Error>)
    ensures r == Parsed(header)
  {
    var timestamp, signature := 0, "";
    var parts := Text.Split(header, ',');
    ghost var fields := Fields(header);
    for i := 0 to |parts|
      invariant Timestamp(fields[..i]) == Some(timestamp)
      invariant Signature(fields[..i]) == signature
    {
      assert fields[..i + 1][..i] == fields[..i] && fields[i] == Classify(parts[i]);
      var part := Text.TrimSpace(parts[i]);
      if Text.HasPrefix(part, "t=") {
        var parsed := Decimal.ParseInt64(part[2..]);
        if parsed.None? || parsed.value <= 0 {
          BadTimeStays(fields, i + 1);
          return Err(InvalidSignature);
        }
        timestamp := parsed.value;
      } else if Text.HasPrefix(part, "v1=") {
        signature := part[3..];
      }
    }
    assert fields[..|parts|] == fields;
    if timestamp == 0 || signature == "" {
      return Err(InvalidSignature);
    }
    if !HexText(signature) {
      return Err(InvalidSignature);
    }
    return Ok((timestamp, signature));
  }

  // ---------- What a header must hold ----------

  // The i-th field is the timestamp t, and no later field is a timestamp.
  ghost predicate LastTime(fields: seq<Field>, i: nat, t: int) {
    && i < |fields| && fields[i] == Time(t)
    && forall k | i < k < |fields| :: !fields[k].Time?
  }

  ghost predicate LastSignature(fields: seq<Field>, i: nat, sig: string) {
    && i < |fields| && fields[i] == Sig(sig)
    && forall k | i < k < |fields| :: !fields[k].Sig?
  }

  lemma {:induction false} TimestampIsLast(fields: seq<Field>, t: int)
    requires forall i | 0 <= i < |fields| && fields[i].Time? :: fields[i].t > 0
    requires t > 0
    ensures Timestamp(fields) == Some(t) <==> BadTime !in fields && exists i: nat :: LastTime(fields, i, t)
    ensures Timestamp(fields).None? <==> BadTime in fields
  {
    if fields != [] {
      var n := |fields| - 1;
      var init, last := fields[..n], fields[n];
      TimestampIsLast(init, t);
      assert fields == init + [last];
      if last.Time? {
        assert LastTime(fields, n, last.t);
        assert forall i: nat | LastTime(fields, i, t) :: i == n;
      } else {
        assert forall i: nat :: LastTime(fields, i, t) <==> LastTime(init, i, t);
      }
    }
  }

  lemma {:induction false} TimestampPositive(fields: seq<Field>)
    requires forall i | 0 <= i < |fields| && fields[i].Time? :: fields[i].t > 0
    ensures Timestamp(fields).Some? ==> Timestamp(fields).value >= 0
  {
    if fields != [] {
      TimestampPositive(fields[..|fields| - 1]);
    }
  }

  lemma {:induction false} SignatureIsLast(fields: seq<Field>, sig: string)
    requires sig != ""
    ensures Signature(fields) == sig <==> exists i: nat :: LastSignature(fields, i, sig)
  {
    if fields != [] {
      var n := |fields| - 1;
      var init, last := fields[..n], fields[n];
      SignatureIsLast(init, sig);
      if last.Sig? {
        assert LastSignature(fields, n, last.sig);
        assert forall i: nat | LastSignature(fields, i, sig) :: i == n;
      } else {
        assert forall i: nat :: LastSignature(fields, i, sig) <==> LastSignature(init, i, sig);
      }
    }
  }

  /**
   A header parses to (t, sig) exactly when all its timestamp parts are positive int64
   decimals, the last of them is t, and its last signature part is sig, a non-empty
   hexadecimal text.
   */
  lemma ParsesExactly(header: string, t: int, sig: string)
    ensures
      var fields := Fields(header);
      Parsed(header) == Ok((t, sig)) <==>
        && BadTime !in fields && (exists i: nat :: LastTime(fields, i, t))
        && sig != "" && HexText(sig) && (exists i: nat :: LastSignature(fields, i, sig))
  {
    TimestampPositive(Fields(header));
    if t > 0 {
      TimestampIsLast(Fields(header), t);
    }
    if sig != "" {
      SignatureIsLast(Fields(header), sig);
    }
  }

  // ---------- Round trip ----------

  lemma SignedParts(t: int, sig: string)
    requires ',' !in sig
    ensures Text.Split("t=" + Decimal.PrintInt(t) + ",v1=" + sig, ',') == ["t=" + Decimal.PrintInt(t), "v1=" + sig]
  {
    var a, b := "t=" + Decimal.PrintInt(t), "v1=" + sig;
    Decimal.PrintIntAvoids(t, ',');
    assert "t=" + Decimal.PrintInt(t) + ",v1=" + sig == a + [','] + b;
    Text.SplitAtFirst(a, b, ',');
    Text.SplitWithout(b, ',');
  }

  // The field a printed timestamp becomes.
  function TimeField(t: int): Field {
    if 0 < t <= Decimal.MAX_INT64 then Time(t) else BadTime
  }

  lemma ClassifyTime(t: int)
    ensures Classify("t=" + Decimal.PrintInt(t)) == TimeField(t)
  {
    var p := "t=" + Decimal.PrintInt(t);
    Decimal.ValueOfPrint(if t < 0 then -t else t);
    assert Text.Trimmed(p) by {
      assert p[|p| - 1] == Decimal.PrintInt(t)[|Decimal.PrintInt(t)| - 1];
    }
    Text.TrimTrimmed(p);
    assert p[2..] == Decimal.PrintInt(t);
    Decimal.ParseOfPrintInt(t);
  }

  lemma ClassifySignature(sig: string)
    requires sig != "" && HexText(sig)
    ensures Classify("v1=" + sig) == Sig(sig)
  {
    var p := "v1=" + sig;
    assert Text.Trimmed(p) by {
      assert p[|p| - 1] == sig[|sig| - 1];
    }
    Text.TrimTrimmed(p);
    assert p[3..] == sig && p[0] == 'v';
  }

  lemma SignedFields(t: int, sig: string)
    requires sig != "" && HexText(sig)
    ensures Fields("t=" + Decimal.PrintInt(t) + ",v1=" + sig) == [TimeField(t), Sig(sig)]
  {
    SignedParts(t, sig);
    ClassifyTime(t);
    ClassifySignature(sig);
  }

  lemma TwoFields(time: Field, sig: string)
    requires time.Time? || time.BadTime?
    ensures Timestamp([time, Sig(sig)]) == if time.Time? then Some(time.t) else None
    ensures Signature([time, Sig(sig)]) == sig
  {
    var fields := [time, Sig(sig)];
    assert fields[..1] == [time] && fields[..1][..0] == [];
    assert Timestamp(fields[..1]) == if time.Time? then Some(time.t) else None;
  }

  /** Parsing a signed header gives back timestamp and signature, if and only if the timestamp is a positive int64. */
  lemma ParseOfSigned(mac: Mac, secret: string, t: int, payload: string)
    requires Text.TrimSpace(secret) != "" && |mac(secret, MacInput(t, payload))| == DIGEST_SIZE
    ensures Parsed(SignHeader(mac, secret, t, payload).value) ==
            if 0 < t <= Decimal.MAX_INT64 then Ok((t, ComputeSignature(mac, secret, t, payload)))
            else Err(InvalidSignature)
  {
    var sig := ComputeSignature(mac, secret, t, payload);
    HexEncodes(mac(secret, MacInput(t, payload)));
    SignedFields(t, sig);
    TwoFields(TimeField(t), sig);
  }

  // ---------- Verification ----------

  // Two's complement wrap-around to int64.
  function WrapInt64(x: int): int {
    (x - Decimal.MIN_INT64) % Decimal.UINT64_RANGE + Decimal.MIN_INT64
  }

  const UNIX_TO_INTERNAL: int := 62_135_596_800

  // The seconds of time.Unix(t, 0), which counts from year 1 in an int64.
  function UnixSeconds(t: int): int {
    WrapInt64(t + UNIX_TO_INTERNAL) - UNIX_TO_INTERNAL
  }

  // Time.Sub: the difference, held to the range of a Duration.
  function Sub(now: int, t: int): int {
    var d := now - UnixSeconds(t) * SECOND;
    if d < Decimal.MIN_INT64 then Decimal.MIN_INT64 else if d > Decimal.MAX_INT64 then Decimal.MAX_INT64 else d
  }

  // The negation of the least int64 is itself.
  function AbsDuration(d: int): int {
    if d < 0 then WrapInt64(-d) else d
  }

  function VerifyHeader(
    mac: Mac, secret: string, header: string, payload: string, now: int, tolerance: int): Result<(), Error>
  {
    if Text.TrimSpace(secret) == "" then Err(InvalidSecret)
    else
      match Parsed(header)
      case Err(e) => Err(e)
      case Ok((t, sig)) =>
        if tolerance > 0 && AbsDuration(Sub(now, t)) > tolerance then Err(TimestampSkew)
        else if ComputeSignature(mac, secret, t, payload) != sig then Err(InvalidSignature)
        else Ok(())
  }

  // The difference, in nanoseconds, is one a Duration can hold and negate.
  predicate FitsDuration(d: int) {
    Decimal.MIN_INT64 < d <= Decimal.MAX_INT64
  }

  lemma WrapFacts(x: int)
    ensures Decimal.MIN_INT64 <= x <= Decimal.MAX_INT64 ==> WrapInt64(x) == x
    ensures x == -Decimal.MIN_INT64 ==> WrapInt64(x) == Decimal.MIN_INT64
  {
  }

  /** A timestamp within 62,135,596,800 seconds of the greatest int64 counts as one 2^64 seconds earlier. */
  lemma UnixWraps(t: int)
    requires 0 < t <= Decimal.MAX_INT64
    ensures UnixSeconds(t) == if t <= Decimal.MAX_INT64 - 62_135_596_800 then t else t - 0x1_0000_0000_0000_0000
  {
  }

  /** How the skew test comes out for every difference; only one below the range passes unmeasured. */
  lemma SkewTest(now: int, t: int, tolerance: int)
    requires 0 < tolerance <= Decimal.MAX_INT64
    ensures
      var d := now - UnixSeconds(t) * SECOND;
      AbsDuration(Sub(now, t)) <= tolerance <==>
        || -tolerance <= d <= tolerance
        || d <= Decimal.MIN_INT64
        || (d > Decimal.MAX_INT64 && tolerance == Decimal.MAX_INT64)
  {
    WrapFacts(-Sub(now, t));
  }

  // The header names this timestamp and signature, as `ParsesExactly` has it.
  ghost predicate Names(header: string, t: int, sig: string) {
    var fields := Fields(header);
    && BadTime !in fields && (exists i: nat :: LastTime(fields, i, t))
    && sig != "" && HexText(sig) && (exists i: nat :: LastSignature(fields, i, sig))
  }

  // The clock is within the tolerance of the timestamp, or too far behind it to be measured.
  predicate InTime(now: int, t: int, tolerance: int) {
    var d := now - UnixSeconds(t) * SECOND;
    || tolerance <= 0 || -tolerance <= d <= tolerance
    || d <= Decimal.MIN_INT64 || (d > Decimal.MAX_INT64 && tolerance == Decimal.MAX_INT64)
  }

  /**
   Any header verifies exactly when the secret is not blank, the header names a timestamp in
   time, and the signature it names is the MAC of that timestamp and the payload; the errors
   come in that order.
   */
  lemma VerifiesExactly(mac: Mac, secret: string, header: string, payload: string, now: int, tolerance: int)
    requires tolerance <= Decimal.MAX_INT64
    ensures
      var r := VerifyHeader(mac, secret, header, payload, now, tolerance);
      && (r.Ok? <==> !Text.Blank(secret) && exists t ::
            InTime(now, t, tolerance) && Names(header, t, HexEncode(mac(secret, MacInput(t, payload)))))
      && (r == Err(InvalidSecret) <==> Text.Blank(secret))
      && (r == Err(TimestampSkew) <==> !Text.Blank(secret) && exists t, sig ::
            Names(header, t, sig) && !InTime(now, t, tolerance))
  {
    Text.TrimSpaceBlank(secret);
    forall t, sig
      ensures Names(header, t, sig) <==> Parsed(header) == Ok((t, sig))
    {
      ParsesExactly(header, t, sig);
    }
    if Parsed(header).Ok? {
      var (t, sig) := Parsed(header).value;
      assert Names(header, t, sig);
      if tolerance > 0 {
        SkewTest(now, t, tolerance);
      }
    }
  }

  /** When a signed header verifies, for every positive int64 timestamp, clock and tolerance. */
  lemma SignedVerifies(mac: Mac, secret: string, t: int, payload: string, now: int, tolerance: int)
    requires Text.TrimSpace(secret) != "" && |mac(secret, MacInput(t, payload))| == DIGEST_SIZE
    requires 0 < t <= Decimal.MAX_INT64 && tolerance <= Decimal.MAX_INT64
    ensures VerifyHeader(mac, secret, SignHeader(mac, secret, t, payload).value, payload, now, tolerance) ==
            if InTime(now, t, tolerance) then Ok(()) else Err(TimestampSkew)
  {
    ParseOfSigned(mac, secret, t, payload);
    if tolerance > 0 {
      SkewTest(now, t, tolerance);
    }
  }

  /**
   A signed header verifies exactly when there is no tolerance or its timestamp is within
   it, for all timestamps and clocks whose difference fits a Duration.
   */
  lemma SignedVerifiesIff(mac: Mac, secret: string, t: int, payload: string, now: int, tolerance: int)
    requires Text.TrimSpace(secret) != "" && |mac(secret, MacInput(t, payload))| == DIGEST_SIZE
    requires 0 < t <= Decimal.MAX_INT64 - 62_135_596_800 && tolerance <= Decimal.MAX_INT64
    requires FitsDuration(now - t * 1_000_000_000)
    ensures VerifyHeader(mac, secret, SignHeader(mac, secret, t, payload).value, payload, now, tolerance).Ok?
            <==> tolerance <= 0 || -tolerance <= now - t * 1_000_000_000 <= tolerance
  {
    SignedVerifies(mac, secret, t, payload, now, tolerance);
    WrapFacts(t + UNIX_TO_INTERNAL);
  }

  /**
   A timestamp far enough ahead of the clock is accepted under any tolerance: the bound on
   the difference is needed.
   */
  lemma FarFutureIsAccepted(mac: Mac, secret: string, payload: string, tolerance: int)
    requires Text.TrimSpace(secret) != "" && |mac(secret, MacInput(10_000_000_000, payload))| == DIGEST_SIZE
    requires 0 < tolerance <= Decimal.MAX_INT64
    ensures
      var header := SignHeader(mac, secret, 10_000_000_000, payload).value;
      VerifyHeader(mac, secret, header, payload, 0, tolerance).Ok?
  {
    SignedVerifies(mac, secret, 10_000_000_000, payload, 0, tolerance);
    WrapFacts(10_000_000_000 + UNIX_TO_INTERNAL);
  }

  /** A signed header verifies for another payload only if two different messages have one MAC. */
  lemma OnlySignedPayloadVerifies(
    mac: Mac, secret: string, t: int, payload: string, other: string, now: int, tolerance: int)
    requires Text.TrimSpace(secret) != "" && |mac(secret, MacInput(t, payload))| == DIGEST_SIZE
    requires VerifyHeader(mac, secret, SignHeader(mac, secret, t, payload).value, payload, now, tolerance).Ok?
    ensures VerifyHeader(mac, secret, SignHeader(mac, secret, t, payload).value, other, now, tolerance).Ok? <==>
            mac(secret, MacInput(t, other)) == mac(secret, MacInput(t, payload))
    ensures MacInput(t, other) == MacInput(t, payload) <==> other == payload
  {
    ParseOfSigned(mac, secret, t, payload);
    var a, b := mac(secret, MacInput(t, other)), mac(secret, MacInput(t, payload));
    if HexEncode(a) == HexEncode(b) {
      HexInjective(a, b);
    }
    MacInputInjective(t, other, t, payload);
  }
}
