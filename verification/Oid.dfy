/**
 * Object identifiers between dotted text, arc lists and BER bodies (ITU-T X.690 section 8.19, RFC 2578 section 3.5).
 */
module Oid {
  import opened Bytes

  const ARCS_PER_ROOT := 40
  const LAST_ROOT_ARC := 2
  const MAX_ARCS := 128
  const MAX_ARC := 0xFFFF_FFFF
  const MAX_FIRST_SUB_IDENTIFIER := ARCS_PER_ROOT * LAST_ROOT_ARC + MAX_ARC

  datatype OidError = NotAnIdentifier | EmptyBody | Unterminated | LeadingPadding | ArcTooLarge | TooManyArcs

  // ---------------------------------------------------------------- arcs and octets

  predicate ValidArcs(arcs: seq<nat>) {
    && 2 <= |arcs| <= MAX_ARCS
    && (forall i :: 0 <= i < |arcs| ==> arcs[i] <= MAX_ARC)
    && arcs[0] <= LAST_ROOT_ARC
    && (arcs[0] < LAST_ROOT_ARC ==> arcs[1] < ARCS_PER_ROOT)
  }

  /** Every octet of a sub-identifier but the last: seven bits each, the top bit set. */
  function Continuation(n: nat): bytes {
    if n == 0 then [] else Continuation(n / 128) + [128 + n % 128]
  }

  function Base128(n: nat): bytes {
    Continuation(n / 128) + [n % 128]
  }

  function Base128All(numbers: seq<nat>): bytes {
    if |numbers| == 0 then [] else Base128(numbers[0]) + Base128All(numbers[1..])
  }

  function Reversed(s: bytes): bytes {
    if |s| == 0 then [] else Reversed(s[1..]) + [s[0]]
  }

  /** The source's loop: least significant octet first, then reversed. */
  method Base128Octets(number: nat) returns (r: bytes)
    ensures r == Base128(number)
  {
    var octets: bytes := [number % 128];
    var rest: nat := number / 128;
    while rest != 0
      invariant Base128(number) == Continuation(rest) + Reversed(octets)
      decreases rest
    {
      ReversedSnoc(octets, 128 + rest % 128);
      octets := octets + [128 + rest % 128];
      rest := rest / 128;
    }
    r := Reversed(octets);
  }

  lemma {:induction false} ReversedSnoc(s: bytes, b: byte)
    ensures Reversed(s + [b]) == [b] + Reversed(s)
  {
    if |s| == 0 {
    } else {
      assert (s + [b])[1..] == s[1..] + [b];
      ReversedSnoc(s[1..], b);
    }
  }

  function EncodeArcs(arcs: seq<nat>): bytes
    requires |arcs| >= 2
  {
    Base128(ARCS_PER_ROOT * arcs[0] + arcs[1]) + Base128All(arcs[2..])
  }

  /** The largest value the sub-identifier after `found` others may take. */
  function Bound(found: nat): nat {
    if found > 0 then MAX_ARC else MAX_FIRST_SUB_IDENTIFIER
  }

  /** The reading loop from any point: `numbers` done, `current` under way, `rest` unread. */
  function SubIdentifiersFrom(rest: bytes, numbers: seq<nat>, current: nat,
                              starting: bool): Result<seq<nat>, OidError> {
    if |rest| == 0 then
      if |numbers| + 1 > MAX_ARCS then Err(TooManyArcs) else Ok(numbers)
    else
      var octet := rest[0];
      if starting && octet == 128 then Err(LeadingPadding)
      else
        var value := current * 128 + octet % 128;
        if value > Bound(|numbers|) then Err(ArcTooLarge)
        else if octet < 128 then SubIdentifiersFrom(rest[1..], numbers + [value], 0, true)
        else SubIdentifiersFrom(rest[1..], numbers, value, false)
  }

  method SubIdentifiers(body: bytes) returns (r: Result<seq<nat>, OidError>)
    ensures r == SubIdentifiersFrom(body, [], 0, true)
  {
    var numbers: seq<nat> := [];
    var current: nat, starting := 0, true;
    for i := 0 to |body|
      invariant SubIdentifiersFrom(body, [], 0, true) == SubIdentifiersFrom(body[i..], numbers, current, starting)
    {
      var octet := body[i];
      if starting && octet == 128 {
        return Err(LeadingPadding);
      }
      current := current * 128 + octet % 128;
      if current > (if |numbers| > 0 then MAX_ARC else MAX_FIRST_SUB_IDENTIFIER) {
        return Err(ArcTooLarge);
      }
      starting := octet < 128;
      if starting {
        numbers := numbers + [current];
        current := 0;
      }
    }
    if |numbers| + 1 > MAX_ARCS {
      return Err(TooManyArcs);
    }
    return Ok(numbers);
  }

  function ArcsOf(numbers: seq<nat>): seq<nat>
    requires |numbers| >= 1
  {
    var quotient := numbers[0] / ARCS_PER_ROOT;
    var head := if quotient < LAST_ROOT_ARC then quotient else LAST_ROOT_ARC;
    [head, numbers[0] - ARCS_PER_ROOT * head] + numbers[1..]
  }

  function DecodeArcs(body: bytes): Result<seq<nat>, OidError> {
    if |body| == 0 then Err(EmptyBody)
    else if body[|body| - 1] >= 128 then Err(Unterminated)
    else
      var numbers :- SubIdentifiersFrom(body, [], 0, true);
      ReadIsEncoded(body, [], 0, true);
      Ok(ArcsOf(numbers))
  }

  // One sub-identifier read back.

  lemma {:induction false} ReadsContinuation(k: nat, rest: bytes, numbers: seq<nat>)
    requires 0 < k <= Bound(|numbers|)
    ensures SubIdentifiersFrom(Continuation(k) + rest, numbers, 0, true) == SubIdentifiersFrom(rest, numbers, k, false)
  {
    var last: byte := 128 + k % 128;
    assert Continuation(k) + rest == Continuation(k / 128) + ([last] + rest);
    assert ([last] + rest)[1..] == rest;
    if k / 128 == 0 {
      assert Continuation(k / 128) + ([last] + rest) == [last] + rest;
    } else {
      ReadsContinuation(k / 128, [last] + rest, numbers);
    }
  }

  lemma {:induction false} ReadsOne(n: nat, rest: bytes, numbers: seq<nat>)
    requires n <= Bound(|numbers|)
    ensures SubIdentifiersFrom(Base128(n) + rest, numbers, 0, true) == SubIdentifiersFrom(rest, numbers + [n], 0, true)
  {
    var last: byte := n % 128;
    assert Base128(n) + rest == Continuation(n / 128) + ([last] + rest);
    assert ([last] + rest)[1..] == rest;
    if n / 128 == 0 {
      assert Continuation(n / 128) + ([last] + rest) == [last] + rest;
    } else {
      ReadsContinuation(n / 128, [last] + rest, numbers);
    }
  }

  lemma {:induction false} ReadsAll(more: seq<nat>, numbers: seq<nat>)
    requires |numbers| > 0
    requires forall i :: 0 <= i < |more| ==> more[i] <= MAX_ARC
    ensures SubIdentifiersFrom(Base128All(more), numbers, 0, true) == SubIdentifiersFrom([], numbers + more, 0, true)
  {
    if |more| == 0 {
      assert numbers + more == numbers;
    } else {
      ReadsOne(more[0], Base128All(more[1..]), numbers);
      ReadsAll(more[1..], numbers + [more[0]]);
      assert numbers + [more[0]] + more[1..] == numbers + more;
    }
  }

  lemma {:induction false} Base128AllEnds(numbers: seq<nat>)
    requires |numbers| > 0
    ensures var all := Base128All(numbers); |all| > 0 && all[|all| - 1] < 128
  {
    if |numbers| <= 1 {
    } else {
      Base128AllEnds(numbers[1..]);
    }
  }

  /** Encoding any valid arc list and reading the body back gives the same arcs. */
  lemma ArcsRoundTrip(arcs: seq<nat>)
    requires ValidArcs(arcs)
    ensures DecodeArcs(EncodeArcs(arcs)) == Ok(arcs)
  {
    hide Base128, Continuation;
    var first := ARCS_PER_ROOT * arcs[0] + arcs[1];
    var numbers := [first] + arcs[2..];
    assert numbers[1..] == arcs[2..];
    assert EncodeArcs(arcs) == Base128All(numbers);
    Base128AllEnds(numbers);
    ReadsOne(first, Base128All(arcs[2..]), []);
    assert [] + [first] == [first];
    ReadsAll(arcs[2..], [first]);
    assert ArcsOf(numbers) == arcs;
  }

  /** What the loop may have added to `numbers` by the time it has read `rest`. */
  ghost predicate Explains(rest: bytes, numbers: seq<nat>, current: nat, out: seq<nat>) {
    && numbers <= out
    && |out| + 1 <= MAX_ARCS
    && Continuation(current) + rest == Base128All(out[|numbers|..])
    && (forall i :: |numbers| <= i < |out| ==> out[i] <= Bound(i))
  }

  lemma ExplainsLast(octet: byte, tail: bytes, numbers: seq<nat>, current: nat, out: seq<nat>)
    requires octet < 128 && current * 128 + octet <= Bound(|numbers|)
    requires Explains(tail, numbers + [current * 128 + octet], 0, out)
    ensures Explains([octet] + tail, numbers, current, out)
  {
    var value := current * 128 + octet;
    var added := out[|numbers|..];
    assert added[0] == value;
    assert added[1..] == out[|numbers + [value]|..];
    assert value / 128 == current && value % 128 == octet;
    assert Continuation(0) + tail == tail;
    assert Continuation(current) + ([octet] + tail) == Base128(value) + tail;
  }

  lemma ExplainsMore(octet: byte, tail: bytes, numbers: seq<nat>, current: nat, out: seq<nat>)
    requires octet >= 128 && current * 128 + octet % 128 > 0
    requires Explains(tail, numbers, current * 128 + octet % 128, out)
    ensures Explains([octet] + tail, numbers, current, out)
  {
    var value := current * 128 + octet % 128;
    assert value / 128 == current && 128 + value % 128 == octet;
    assert Continuation(current) + ([octet] + tail) == Continuation(value) + tail;
  }

  /** Whatever the loop still accepts is exactly the encoding of what it adds. */
  lemma {:induction false} ReadIsEncoded(rest: bytes, numbers: seq<nat>, current: nat, starting: bool)
    requires starting ==> current == 0
    requires !starting ==> current > 0 && |rest| > 0
    requires |rest| > 0 ==> rest[|rest| - 1] < 128
    requires SubIdentifiersFrom(rest, numbers, current, starting).Ok?
    ensures Explains(rest, numbers, current, SubIdentifiersFrom(rest, numbers, current, starting).value)
    ensures |rest| > 0 ==> |SubIdentifiersFrom(rest, numbers, current, starting).value| > |numbers|
    decreases |rest|
  {
    if |rest| == 0 {
    } else {
      var octet, tail := rest[0], rest[1..];
      var value := current * 128 + octet % 128;
      assert rest == [octet] + tail;
      if octet < 128 {
        ReadIsEncoded(tail, numbers + [value], 0, true);
        ExplainsLast(octet, tail, numbers, current, SubIdentifiersFrom(rest, numbers, current, starting).value);
      } else {
        ReadIsEncoded(tail, numbers, value, false);
        ExplainsMore(octet, tail, numbers, current, SubIdentifiersFrom(rest, numbers, current, starting).value);
      }
    }
  }

  lemma ArcsOfIsValid(numbers: seq<nat>)
    requires 1 <= |numbers| < MAX_ARCS && forall i :: 0 <= i < |numbers| ==> numbers[i] <= Bound(i)
    ensures var arcs := ArcsOf(numbers);
            ValidArcs(arcs) && ARCS_PER_ROOT * arcs[0] + arcs[1] == numbers[0] && arcs[2..] == numbers[1..]
  {
    var arcs := ArcsOf(numbers);
    assert numbers[0] <= Bound(0);
    forall i | 2 <= i < |arcs| ensures arcs[i] <= MAX_ARC {
      assert arcs[i] == numbers[i - 1] <= Bound(i - 1);
    }
  }

  /** Every accepted body decodes to valid arcs and is the only encoding of them. */
  lemma BodyRoundTrip(body: bytes)
    requires DecodeArcs(body).Ok?
    ensures ValidArcs(DecodeArcs(body).value)
    ensures EncodeArcs(DecodeArcs(body).value) == body
  {
    assert Continuation(0) + body == body;
    hide SubIdentifiersFrom, Continuation, Base128, ValidArcs, ArcsOf;
    ReadIsEncoded(body, [], 0, true);
    var numbers := SubIdentifiersFrom(body, [], 0, true).value;
    assert numbers[0..] == numbers;
    ArcsOfIsValid(numbers);
  }

  /** What SMI and X.660 allow, in numbers: RFC 2578 section 3.5 and ITU-T X.690 section 8.19.4. */
  predicate IsSmi(arcs: seq<nat>) {
    && 2 <= |arcs| <= 128
    && (forall i :: 0 <= i < |arcs| ==> arcs[i] < 0x1_0000_0000)
    && (arcs[0] == 2 || (arcs[0] < 2 && arcs[1] < 40))
  }

  /**
   * A body is accepted if and only if it is the encoding of arcs the standards allow, the first two of them in one
   * sub-identifier, 40 times the first and the second.
   */
  lemma AcceptedBodies(body: bytes, arcs: seq<nat>)
    ensures DecodeArcs(body).Ok? ==> IsSmi(DecodeArcs(body).value)
    ensures DecodeArcs(body) == Ok(arcs)
            <==> IsSmi(arcs) && body == Base128(40 * arcs[0] + arcs[1]) + Base128All(arcs[2..])
  {
    if DecodeArcs(body).Ok? {
      BodyRoundTrip(body);
    }
    if IsSmi(arcs) {
      ArcsRoundTrip(arcs);
    }
    hide DecodeArcs, Base128, Base128All;
  }

  // ---------------------------------------------------------------- dotted text

  predicate IsDigit(c: char) {
    '0' <= c <= '9'
  }

  predicate AllDigits(s: string) {
    forall i :: 0 <= i < |s| ==> IsDigit(s[i])
  }

  function DigitOf(c: char): (d: nat)
    requires IsDigit(c)
    ensures d < 10
  {
    c as int - '0' as int
  }

  function DigitChar(d: nat): (c: char)
    requires d < 10
    ensures IsDigit(c) && DigitOf(c) == d
  {
    ('0' as int + d) as char
  }

  /** int(s) for a run of digits. */
  function ParseNat(s: string): nat
    requires AllDigits(s)
  {
    if |s| == 0 then 0 else ParseNat(s[..|s| - 1]) * 10 + DigitOf(s[|s| - 1])
  }

  /** str(n). */
  function ToText(n: nat): (s: string)
    ensures |s| >= 1 && AllDigits(s)
  {
    if n < 10 then [DigitChar(n)] else ToText(n / 10) + [DigitChar(n % 10)]
  }

  predicate HasNoLeadingZero(s: string) {
    |s| == 1 || (|s| > 1 && s[0] != '0')
  }

  lemma {:induction false} ParseOfText(n: nat)
    ensures ParseNat(ToText(n)) == n
    ensures HasNoLeadingZero(ToText(n))
    ensures n > 0 ==> ToText(n)[0] != '0'
  {
    var s := ToText(n);
    if n >= 10 {
      ParseOfText(n / 10);
      assert s[..|s| - 1] == ToText(n / 10);
    } else {
      assert s[..0] == [];
      assert ParseNat(s) == ParseNat(s[..0]) * 10 + DigitOf(s[0]);
    }
  }

  lemma {:induction false} TextOfParse(s: string)
    requires AllDigits(s) && HasNoLeadingZero(s)
    ensures ToText(ParseNat(s)) == s
    ensures s[0] != '0' ==> ParseNat(s) > 0
  {
    var init, last := s[..|s| - 1], s[|s| - 1];
    assert s == init + [last];
    if |s| == 1 {
      assert ParseNat(init) == 0;
      assert DigitChar(DigitOf(last)) == last;
    } else {
      TextOfParse(init);
      assert ParseNat(s) / 10 == ParseNat(init) && ParseNat(s) % 10 == DigitOf(last);
    }
  }

  function Pow10(n: nat): nat {
    if n == 0 then 1 else 10 * Pow10(n - 1)
  }

  lemma {:induction false} TextLength(n: nat, width: nat)
    requires width > 0 && n < Pow10(width)
    ensures |ToText(n)| <= width
  {
    if n < 10 {
    } else {
      TextLength(n / 10, width - 1);
    }
  }

  /** s.split("."). */
  function Split(s: string): (parts: seq<string>)
    ensures |parts| >= 1
  {
    if |s| == 0 then [""]
    else
      var rest := Split(s[1..]);
      if s[0] == '.' then [""] + rest else [[s[0]] + rest[0]] + rest[1..]
  }

  /** ".".join(parts). */
  function Join(parts: seq<string>): string {
    if |parts| == 0 then "" else if |parts| == 1 then parts[0] else parts[0] + "." + Join(parts[1..])
  }

  lemma {:induction false} SplitAfter(part: string, rest: string)
    requires '.' !in part
    ensures Split(part + rest) == [part + Split(rest)[0]] + Split(rest)[1..]
  {
    if |part| == 0 {
      assert part + rest == rest;
      assert part + Split(rest)[0] == Split(rest)[0];
    } else {
      assert (part + rest)[1..] == part[1..] + rest;
      SplitAfter(part[1..], rest);
      assert [part[0]] + (part[1..] + Split(rest)[0]) == part + Split(rest)[0];
    }
  }

  lemma {:induction false} SplitOfJoin(parts: seq<string>)
    requires |parts| >= 1
    requires forall i :: 0 <= i < |parts| ==> '.' !in parts[i]
    ensures Split(Join(parts)) == parts
  {
    if |parts| == 1 {
      SplitAfter(parts[0], "");
      assert parts[0] + "" == parts[0];
    } else {
      SplitOfJoin(parts[1..]);
      var tail := "." + Join(parts[1..]);
      assert tail[1..] == Join(parts[1..]);
      assert Join(parts) == parts[0] + tail;
      SplitAfter(parts[0], tail);
      assert parts[0] + "" == parts[0];
    }
  }

  lemma {:induction false} JoinOfSplit(s: string)
    ensures Join(Split(s)) == s
  {
    if |s| == 0 {
    } else {
      JoinOfSplit(s[1..]);
      var rest := Split(s[1..]);
      var parts := Split(s);
      if s[0] == '.' {
        assert parts[1..] == rest;
      } else if |rest| > 1 {
        assert parts[1..] == rest[1..];
      }
      assert s == [s[0]] + s[1..];
    }
  }

  function ParseAll(parts: seq<string>): (arcs: seq<nat>)
    requires forall i :: 0 <= i < |parts| ==> AllDigits(parts[i])
    ensures |arcs| == |parts|
    ensures forall i :: 0 <= i < |parts| ==> arcs[i] == ParseNat(parts[i])
  {
    seq(|parts|, i requires 0 <= i < |parts| => ParseNat(parts[i]))
  }

  function TextAll(arcs: seq<nat>): (parts: seq<string>)
    ensures |parts| == |arcs|
    ensures forall i :: 0 <= i < |arcs| ==> parts[i] == ToText(arcs[i])
  {
    seq(|arcs|, i requires 0 <= i < |arcs| => ToText(arcs[i]))
  }

  /** The source's pattern: two or more dot-separated runs of one to ten digits. */
  predicate IsDotted(s: string) {
    var parts := Split(s);
    |parts| >= 2 && forall i :: 0 <= i < |parts| ==> 1 <= |parts[i]| <= 10 && AllDigits(parts[i])
  }

  function EncodeOid(dotted: string): Result<bytes, OidError> {
    if !IsDotted(dotted) then Err(NotAnIdentifier)
    else
      var arcs := ParseAll(Split(dotted));
      if ValidArcs(arcs) then Ok(EncodeArcs(arcs)) else Err(NotAnIdentifier)
  }

  function DecodeOid(body: bytes): Result<string, OidError> {
    var arcs :- DecodeArcs(body);
    Ok(Join(TextAll(arcs)))
  }

  /** Text the decoder itself would write: no arc carries a leading zero. */
  predicate IsCanonical(dotted: string) {
    forall i :: 0 <= i < |Split(dotted)| ==> HasNoLeadingZero(Split(dotted)[i])
  }

  lemma TextOfArcs(arcs: seq<nat>)
    requires ValidArcs(arcs)
    ensures Split(Join(TextAll(arcs))) == TextAll(arcs)
    ensures IsDotted(Join(TextAll(arcs))) && IsCanonical(Join(TextAll(arcs)))
    ensures ParseAll(TextAll(arcs)) == arcs
  {
    var parts := TextAll(arcs);
    forall i | 0 <= i < |parts|
      ensures '.' !in parts[i] && |parts[i]| <= 10 && HasNoLeadingZero(parts[i]) && ParseNat(parts[i]) == arcs[i] {
      ParseOfText(arcs[i]);
      assert Pow10(10) == 10_000_000_000;
      TextLength(arcs[i], 10);
    }
    SplitOfJoin(parts);
  }

  /** Decoding then encoding gives the identical body, for every body the decoder accepts. */
  lemma DecodeThenEncode(body: bytes)
    requires DecodeOid(body).Ok?
    ensures EncodeOid(DecodeOid(body).value) == Ok(body)
    ensures IsCanonical(DecodeOid(body).value)
  {
    BodyRoundTrip(body);
    TextOfArcs(DecodeArcs(body).value);
  }

  /** What the result record demands of an identifier: a root arc 0 to 2, then dotted runs of digits. */
  predicate IsReportable(dotted: string) {
    var parts := Split(dotted);
    && |parts| >= 2
    && |parts[0]| == 1 && '0' <= parts[0][0] <= '2'
    && forall i :: 1 <= i < |parts| ==> |parts[i]| >= 1 && AllDigits(parts[i])
  }

  lemma DecodedIsReportable(body: bytes)
    requires DecodeOid(body).Ok?
    ensures IsReportable(DecodeOid(body).value)
  {
    BodyRoundTrip(body);
    var arcs := DecodeArcs(body).value;
    TextOfArcs(arcs);
    assert TextAll(arcs)[0] == [DigitChar(arcs[0])];
  }

  /** Encoding then decoding is the identity exactly on text without leading zeros, and always keeps the arcs. */
  lemma EncodeThenDecode(dotted: string)
    requires EncodeOid(dotted).Ok?
    ensures DecodeOid(EncodeOid(dotted).value) == Ok(Join(TextAll(ParseAll(Split(dotted)))))
    ensures DecodeOid(EncodeOid(dotted).value) == Ok(dotted) <==> IsCanonical(dotted)
  {
    var parts := Split(dotted);
    var arcs := ParseAll(parts);
    ArcsRoundTrip(arcs);
    TextOfArcs(arcs);
    JoinOfSplit(dotted);
    if IsCanonical(dotted) {
      forall i | 0 <= i < |parts| ensures TextAll(arcs)[i] == parts[i] {
        TextOfParse(parts[i]);
      }
      assert TextAll(arcs) == parts;
    }
  }
}
