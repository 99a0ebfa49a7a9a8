/** The label encoder of libraries/yacymodel/host_punycode.go and the decoder of RFC 3492. */
module Punycode {
  import opened Arithmetic
  import opened ByteStrings
  import opened Wrappers

  const BASE := 36
  const T_MIN := 1
  const T_MAX := 26
  const SKEW := 38
  const DAMP := 700
  const INITIAL_BIAS := 72
  const INITIAL_N := 128
  const MAX_INT32 := 0x7fff_ffff
  const DELIMITER: Byte := 45

  /** A code point of a Go string. */
  type Rune = r: int | 0 <= r <= 0x10_ffff

  // ---------------------------------------------------------------- parameters

  function Threshold(k: int, bias: int): (t: int)
    ensures T_MIN <= t <= T_MAX
  {
    if k <= bias then T_MIN
    else if k >= bias + T_MAX then T_MAX
    else k - bias
  }

  /** The threshold as section 6.2 of RFC 3492 words it. */
  function RfcThreshold(k: int, bias: int): int {
    if k <= bias + 1 then 1
    else if k >= bias + 26 then 26
    else k - bias
  }

  lemma ThresholdIsTheRfcThreshold(k: int, bias: int)
    ensures Threshold(k, bias) == RfcThreshold(k, bias)
  {
  }

  lemma ThresholdOfABias(k: int, bias: int)
    ensures Threshold(k, bias) == if k <= bias + 1 then 1 else if k >= bias + 26 then 26 else k - bias
  {
  }

  function Digit(d: int): (b: Byte)
    requires 0 <= d < BASE
    ensures b != DELIMITER
    ensures DigitValue(b) == Some(d)
  {
    if d < 26 then d + 97 else d - 26 + 48
  }

  lemma DigitsAreLowerCase(d: nat)
    requires d < 36
    ensures Digit(d) == "abcdefghijklmnopqrstuvwxyz0123456789"[d] as int
  {
  }

  /** The digit a byte stands for in section 5 of RFC 3492, letters in either case. */
  function DigitValue(b: Byte): Option<nat> {
    if 97 <= b <= 122 then Some(b - 97)
    else if 65 <= b <= 90 then Some(b - 65)
    else if 48 <= b <= 57 then Some(b - 48 + 26)
    else None
  }

  /** Section 6.1 of RFC 3492. */
  function Adapt(delta: nat, numPoints: nat, firstTime: bool): (bias: nat)
    requires numPoints > 0
  {
    var damped := if firstTime then delta / DAMP else delta / 2;
    Quotient(damped, numPoints);
    Flatten(damped + damped / numPoints, 0)
  }

  function Flatten(delta: nat, k: nat): (bias: nat) {
    if delta > ((BASE - T_MIN) * T_MAX) / 2 then
      Flatten(delta / (BASE - T_MIN), k + BASE)
    else
      Quotient((BASE - T_MIN + 1) * delta, delta + SKEW);
      k + (BASE - T_MIN + 1) * delta / (delta + SKEW)
  }

  method PunyAdapt(delta: nat, numPoints: nat, firstTime: bool) returns (bias: nat)
    requires numPoints > 0
    ensures bias == Adapt(delta, numPoints, firstTime)
  {
    var d := delta;
    if firstTime {
      d := d / DAMP;
    } else {
      d := d / 2;
    }
    Quotient(d, numPoints);
    d := d + d / numPoints;
    ghost var start := d;
    var k: nat := 0;
    while d > ((BASE - T_MIN) * T_MAX) / 2
      invariant d >= 0
      invariant Flatten(d, k) == Flatten(start, 0)
      decreases d
    {
      d := d / (BASE - T_MIN);
      k := k + BASE;
    }
    Quotient((BASE - T_MIN + 1) * d, d + SKEW);
    bias := k + (BASE - T_MIN + 1) * d / (d + SKEW);
  }

  function Power35(j: nat): (p: nat)
    ensures p > 0
  {
    if j == 0 then 1 else 35 * Power35(j - 1)
  }

  /** How often 35 divides a number until no more than 455 is left. */
  function Divisions(d: nat): nat {
    if d <= 455 then 0 else 1 + Divisions(d / 35)
  }

  /** The bias of section 6.1 of RFC 3492, without the loop. */
  function RfcAdapt(delta: nat, numPoints: nat, firstTime: bool): (bias: nat)
    requires numPoints > 0
  {
    var damped := if firstTime then delta / 700 else delta / 2;
    Quotient(damped, numPoints);
    var d := damped + damped / numPoints;
    var j := Divisions(d);
    Quotient(d, Power35(j));
    36 * j + 36 * (d / Power35(j)) / (d / Power35(j) + 38)
  }

  /** Dividing by 35 and then by one of its powers is dividing by the next power. */
  lemma DividedOnceMore(d: nat, j: nat)
    ensures d / Power35(j + 1) == d / 35 / Power35(j)
  {
    var q, p := d / 35, Power35(j);
    Quotient(q, p);
    Regrouped(q / p, p);
    assert d == q * 35 + d % 35 && q == q / p * p + q % p;
    assert q * 35 == q / p * (35 * p) + q % p * 35;
    DivModUnique(d, 35 * p, q / p, q % p * 35 + d % 35);
  }

  lemma Regrouped(q: nat, p: nat)
    ensures q * p * 35 == q * (35 * p)
  {
  }

  lemma {:induction false} DivisionsAreTheFewest(d: nat, i: nat)
    requires i < Divisions(d)
    ensures d / Power35(i) > 455
  {
    if i > 0 {
      DivisionsAreTheFewest(d / 35, i - 1);
      DividedOnceMore(d, i - 1);
    }
  }

  lemma {:induction false} DivisionsSuffice(d: nat)
    ensures d / Power35(Divisions(d)) <= 455
  {
    if d > 455 {
      DivisionsSuffice(d / 35);
      DividedOnceMore(d, Divisions(d / 35));
    }
  }

  lemma {:induction false} Flattened(d: nat, k: nat)
    ensures var e := d / Power35(Divisions(d));
      Flatten(d, k) == k + 36 * Divisions(d) + 36 * e / (e + 38)
    decreases d
  {
    if d > 455 {
      Flattened(d / 35, k + 36);
      DividedOnceMore(d, Divisions(d / 35));
    }
  }

  lemma AdaptIsTheRfcs(delta: nat, numPoints: nat, firstTime: bool)
    requires numPoints > 0
    ensures Adapt(delta, numPoints, firstTime) == RfcAdapt(delta, numPoints, firstTime)
  {
    var damped := if firstTime then delta / 700 else delta / 2;
    Quotient(damped, numPoints);
    Flattened(damped + damped / numPoints, 0);
  }

  /** The bias after a delta: it is damped by 700 the first time and halved after that, grown by its
      share of the points, and divided by 35 as often as it takes to leave no more than 455. */
  lemma BiasOfADelta(delta: nat, numPoints: nat, firstTime: bool, j: nat)
    requires numPoints > 0
    requires var damped := if firstTime then delta / 700 else delta / 2;
      var d := damped + damped / numPoints;
      d >= 0 && d / Power35(j) <= 455 && forall i: nat | i < j :: d / Power35(i) > 455
    ensures var damped := if firstTime then delta / 700 else delta / 2;
      var e := (damped + damped / numPoints) / Power35(j);
      e + 38 > 0 && Adapt(delta, numPoints, firstTime) == 36 * j + 36 * e / (e + 38)
    ensures Power35(0) == 1 && Power35(j + 1) == 35 * Power35(j)
  {
    var damped := if firstTime then delta / 700 else delta / 2;
    var d := damped + damped / numPoints;
    AdaptIsTheRfcs(delta, numPoints, firstTime);
    Quotient(d, Power35(j));
    if j < Divisions(d) {
      DivisionsAreTheFewest(d, j);
    } else if j > Divisions(d) {
      DivisionsSuffice(d);
    }
  }

  // ---------------------------------------------------- the decoder of RFC 3492

  /** Reads one variable-length integer of section 3.3: the sum and the bytes left. */
  function ReadDelta(s: Bytes, i: nat, w: nat, k: nat, bias: nat): (r: Option<(nat, Bytes)>)
    ensures r.Some? ==> r.value.0 >= i && |r.value.1| < |s|
  {
    if s == [] then None
    else match DigitValue(s[0])
      case None => None
      case Some(digit) =>
        var t := RfcThreshold(k, bias);
        if digit < t then Some((i + Times(digit, w), s[1..]))
        else ReadDelta(s[1..], i + Times(digit, w), Times(w, 36 - t), k + 36, bias)
  }

  datatype DecoderState = DecoderState(n: nat, i: nat, bias: nat, output: seq<int>)

  /** What one delta does to the decoder: the main loop's body below the integer. */
  function Insert(st: DecoderState, sum: nat): DecoderState
    requires sum >= st.i
  {
    var points := |st.output| + 1;
    var n := st.n + sum / points;
    var at := sum % points;
    DecoderState(n, at + 1, RfcAdapt(sum - st.i, points, st.i == 0),
                 st.output[..at] + [n] + st.output[at..])
  }

  /** The decoder's main loop, until the input is exhausted. */
  function Run(s: Bytes, st: DecoderState): Option<DecoderState>
    decreases |s|
  {
    if s == [] then Some(st)
    else match ReadDelta(s, st.i, 1, BASE, st.bias)
      case None => None
      case Some((sum, rest)) => Run(rest, Insert(st, sum))
  }

  function LastDelimiter(s: Bytes): (b: nat)
    ensures b <= |s|
    ensures b == 0 || (b < |s| && s[b] == DELIMITER)
  {
    if s == [] then 0
    else if s[|s| - 1] == DELIMITER then |s| - 1
    else LastDelimiter(s[..|s| - 1])
  }

  predicate AllBasic(s: seq<int>) {
    forall j :: 0 <= j < |s| ==> 0 <= s[j] < INITIAL_N
  }

  function Decode(s: Bytes): Option<seq<int>> {
    var b := LastDelimiter(s);
    if !AllBasic(s[..b]) then None
    else match Run(if b > 0 then s[b + 1..] else s, DecoderState(128, 0, 72, s[..b]))
      case None => None
      case Some(st) => Some(st.output)
  }

  // ------------------------------------------------------------ what is encoded

  /** The code points below n, in order. */
  function Below(s: seq<Rune>, n: nat): seq<Rune> {
    if s == [] then []
    else (if s[0] < n then [s[0]] else []) + Below(s[1..], n)
  }

  /** The digit that is written of a number for a threshold, and what is left to be written. */
  function LowDigit(q: nat, t: nat): (low: nat)
    requires T_MIN <= t <= T_MAX && t <= q
    ensures t <= low < BASE
  {
    Quotient(q - t, BASE - t);
    t + (q - t) % (BASE - t)
  }

  function HighPart(q: nat, t: nat): (high: nat)
    requires T_MIN <= t <= T_MAX && t <= q
    ensures high < q
  {
    Quotient(q - t, BASE - t);
    (q - t) / (BASE - t)
  }

  function VarInt(q: nat, k: nat, bias: nat): (digits: Bytes)
    ensures DELIMITER !in digits
    decreases q
  {
    var t := Threshold(k, bias);
    if q < t then [Digit(q)] else [Digit(LowDigit(q, t))] + VarInt(HighPart(q, t), k + BASE, bias)
  }

  datatype Progress = Progress(delta: nat, bias: nat, handled: nat, out: Bytes)

  function Visit(c: Rune, n: nat, basic: nat, s: Progress): Progress {
    if c < n then s.(delta := s.delta + 1)
    else if c == n then
      Progress(0, Adapt(s.delta, s.handled + 1, s.handled == basic), s.handled + 1,
               s.out + VarInt(s.delta, BASE, s.bias))
    else s
  }

  /** One walk over the code points from position p, inserting every n. */
  function Pass(input: seq<Rune>, p: nat, n: nat, basic: nat, s: Progress): Progress
    requires p <= |input|
    decreases |input| - p
  {
    if p == |input| then s
    else Pass(input, p + 1, n, basic, Visit(input[p], n, basic, s))
  }

  function LeastFrom(input: seq<Rune>, n: nat): (m: nat)
    ensures m == MAX_INT32 || (m in input && n <= m)
    ensures forall r :: r in input && n <= r ==> m <= r
  {
    if input == [] then MAX_INT32
    else
      var m := LeastFrom(input[1..], n);
      assert forall r :: r in input <==> r == input[0] || r in input[1..];
      if n <= input[0] < m then input[0] else m
  }

  lemma {:induction false} BelowKeepsAll(s: seq<Rune>, n: nat)
    requires |Below(s, n)| == |s|
    ensures Below(s, n) == s
  {
    if s != [] {
      BelowIsBelow(s[1..], n);
      BelowKeepsAll(s[1..], n);
    }
  }

  lemma {:induction false} BelowDrops(s: seq<Rune>, n: nat) returns (r: Rune)
    requires |Below(s, n)| < |s|
    ensures r in s && n <= r
  {
    if s[0] >= n {
      r := s[0];
    } else {
      r := BelowDrops(s[1..], n);
    }
  }

  /** The code points a decoder holds when the encoder stands at position p of the walk for n. */
  function Kept(input: seq<Rune>, p: nat, n: nat): seq<Rune>
    requires p <= |input|
  {
    Below(input[..p], n + 1) + Below(input[p..], n)
  }

  lemma {:induction false} BelowIsBelow(s: seq<Rune>, n: nat)
    ensures |Below(s, n)| <= |s|
    ensures forall j :: 0 <= j < |Below(s, n)| ==> Below(s, n)[j] < n
  {
    if s != [] {
      BelowIsBelow(s[1..], n);
    }
  }

  lemma {:induction false} BelowConcat(a: seq<Rune>, b: seq<Rune>, n: nat)
    ensures Below(a + b, n) == Below(a, n) + Below(b, n)
  {
    if a == [] {
      assert a + b == b;
    } else {
      var first := if a[0] < n then [a[0]] else [];
      assert (a + b)[0] == a[0] && (a + b)[1..] == a[1..] + b;
      BelowConcat(a[1..], b, n);
      assert first + (Below(a[1..], n) + Below(b, n)) == (first + Below(a[1..], n)) + Below(b, n);
    }
  }

  lemma {:induction false} BelowSkips(s: seq<Rune>, n: nat, m: nat)
    requires n <= m
    requires forall r :: r in s && n <= r ==> m <= r
    ensures Below(s, n) == Below(s, m)
  {
    if s != [] {
      assert s[0] in s && forall r :: r in s[1..] ==> r in s;
      BelowSkips(s[1..], n, m);
    }
  }

  lemma BelowSteps(input: seq<Rune>, p: nat, n: nat)
    requires p < |input|
    ensures Below(input[..p + 1], n + 1)
         == Below(input[..p], n + 1) + if input[p] <= n then [input[p]] else []
    ensures Below(input[p..], n)
         == (if input[p] < n then [input[p]] else []) + Below(input[p + 1..], n)
  {
    assert input[..p + 1] == input[..p] + [input[p]];
    BelowConcat(input[..p], [input[p]], n + 1);
    assert input[p..][1..] == input[p + 1..];
  }

  lemma KeptStaysOnOther(input: seq<Rune>, p: nat, n: nat)
    requires p < |input| && input[p] != n
    ensures Kept(input, p + 1, n) == Kept(input, p, n)
  {
    BelowSteps(input, p, n);
    var before, after := Below(input[..p], n + 1), Below(input[p + 1..], n);
    if input[p] < n {
      assert before + [input[p]] + after == before + ([input[p]] + after);
    } else {
      assert Below(input[p..], n) == after;
      assert Below(input[..p + 1], n + 1) == before;
    }
  }

  lemma KeptGainsMatch(input: seq<Rune>, p: nat, n: nat)
    requires p < |input| && input[p] == n
    ensures Kept(input, p + 1, n) == Below(input[..p], n + 1) + [n] + Below(input[p..], n)
  {
    BelowSteps(input, p, n);
  }

  lemma KeptEnds(input: seq<Rune>, n: nat)
    ensures Kept(input, 0, n) == Below(input, n)
    ensures Kept(input, |input|, n) == Below(input, n + 1)
  {
    assert input[..|input|] == input && input[0..] == input;
  }

  lemma {:induction false} PassHandles(input: seq<Rune>, p: nat, n: nat, basic: nat, s: Progress)
    requires p <= |input|
    requires s.handled == |Kept(input, p, n)|
    ensures Pass(input, p, n, basic, s).handled == |Below(input, n + 1)|
    decreases |input| - p
  {
    if p == |input| {
      KeptEnds(input, n);
    } else {
      if input[p] == n {
        KeptGainsMatch(input, p, n);
      } else {
        KeptStaysOnOther(input, p, n);
      }
      PassHandles(input, p + 1, n, basic, Visit(input[p], n, basic, s));
    }
  }

  /** The walk for the next code point, and the delta it starts from. */
  function Advanced(s: Progress, n: nat, m: nat): Progress
    requires n <= m
  {
    s.(delta := s.delta + (m - n) * (s.handled + 1))
  }

  lemma NextIsPresent(input: seq<Rune>, n: nat)
    requires |Below(input, n)| < |input|
    ensures var m := LeastFrom(input, n); n <= m && m in input && Below(input, n) == Below(input, m)
    ensures |Below(input, LeastFrom(input, n) + 1)| > |Below(input, n)|
  {
    var _ := BelowDrops(input, n);
    var m := LeastFrom(input, n);
    BelowSkips(input, n, m);
    BelowGrows(input, m);
  }

  lemma {:induction false} BelowGrows(s: seq<Rune>, m: nat)
    ensures |Below(s, m + 1)| >= |Below(s, m)|
    ensures m in s ==> |Below(s, m + 1)| > |Below(s, m)|
  {
    if s != [] {
      BelowGrows(s[1..], m);
    }
  }

  /** One round of the outer loop for the code point m, the least still to come. */
  function Round(input: seq<Rune>, n: nat, m: nat, basic: nat, s: Progress): Progress
    requires n <= m
  {
    var s' := Pass(input, 0, m, basic, Advanced(s, n, m));
    s'.(delta := s'.delta + 1)
  }

  lemma RoundGrows(input: seq<Rune>, n: nat, basic: nat, s: Progress)
    requires s.handled == |Below(input, n)| < |input|
    ensures var m := LeastFrom(input, n);
      n <= m && s.handled < Round(input, n, m, basic, s).handled == |Below(input, m + 1)|
  {
    NextIsPresent(input, n);
    var m := LeastFrom(input, n);
    KeptEnds(input, m);
    PassHandles(input, 0, m, basic, Advanced(s, n, m));
  }

  function Rounds(input: seq<Rune>, n: nat, basic: nat, s: Progress): (out: Bytes)
    requires s.handled == |Below(input, n)|
    decreases |input| - s.handled
  {
    if s.handled >= |input| then s.out
    else
      RoundGrows(input, n, basic, s);
      var m := LeastFrom(input, n);
      Rounds(input, m + 1, basic, Round(input, n, m, basic, s))
  }

  function BasicBytes(input: seq<Rune>): (r: Bytes)
    ensures r == Below(input, INITIAL_N)
  {
    BelowIsBelow(input, INITIAL_N);
    Below(input, INITIAL_N)
  }

  /** The basic code points, and the delimiter after them when there are any. */
  function Head(input: seq<Rune>): Bytes {
    BasicBytes(input) + if BasicBytes(input) == [] then [] else [DELIMITER]
  }

  function Start(input: seq<Rune>): Progress {
    Progress(0, INITIAL_BIAS, |BasicBytes(input)|, Head(input))
  }

  /** What punycodeEncode returns. */
  function Encoding(input: seq<Rune>): Bytes {
    Rounds(input, INITIAL_N, |BasicBytes(input)|, Start(input))
  }

  // ------------------------------------------------- the decoder follows along

  lemma LowAndHigh(i: nat, low: nat, high: nat, w: nat, radix: nat)
    ensures (i + Times(low, w)) + Times(high, Times(w, radix)) == i + Times(low + high * radix, w)
  {
    assert high * (w * radix) == (high * radix) * w;
  }

  lemma Split(q: nat, t: nat)
    requires T_MIN <= t <= T_MAX && t <= q
    ensures LowDigit(q, t) + HighPart(q, t) * (BASE - t) == q
  {
    Quotient(q - t, BASE - t);
  }

  lemma ReadDeltaGoesOn(digit: nat, s: Bytes, i: nat, w: nat, k: nat, bias: nat)
    requires RfcThreshold(k, bias) <= digit < BASE
    ensures ReadDelta([Digit(digit)] + s, i, w, k, bias)
         == ReadDelta(s, i + Times(digit, w), Times(w, BASE - RfcThreshold(k, bias)), k + BASE, bias)
  {
    assert ([Digit(digit)] + s)[1..] == s;
  }

  lemma ReadDeltaStops(digit: nat, s: Bytes, i: nat, w: nat, k: nat, bias: nat)
    requires digit < RfcThreshold(k, bias)
    ensures ReadDelta([Digit(digit)] + s, i, w, k, bias) == Some((i + Times(digit, w), s))
  {
    assert ([Digit(digit)] + s)[1..] == s;
  }

  lemma VarIntGoesOn(q: nat, k: nat, bias: nat, rest: Bytes)
    requires q >= Threshold(k, bias)
    ensures var t := Threshold(k, bias);
      VarInt(q, k, bias) + rest == [Digit(LowDigit(q, t))] + (VarInt(HighPart(q, t), k + BASE, bias) + rest)
  {
    var t := Threshold(k, bias);
    var digit, digits := [Digit(LowDigit(q, t))], VarInt(HighPart(q, t), k + BASE, bias);
    assert (digit + digits) + rest == digit + (digits + rest);
  }

  /** Section 3.3 of RFC 3492: a variable-length integer is read back whatever follows it. */
  lemma {:induction false} VarIntReadsBack(q: nat, k: nat, bias: nat, i: nat, w: nat, rest: Bytes)
    ensures ReadDelta(VarInt(q, k, bias) + rest, i, w, k, bias) == Some((i + Times(q, w), rest))
    decreases q
  {
    ThresholdIsTheRfcThreshold(k, bias);
    var t := Threshold(k, bias);
    if q < t {
      ReadDeltaStops(q, rest, i, w, k, bias);
    } else {
      var low, high := LowDigit(q, t), HighPart(q, t);
      VarIntGoesOn(q, k, bias, rest);
      ReadDeltaGoesOn(low, VarInt(high, k + BASE, bias) + rest, i, w, k, bias);
      VarIntReadsBack(high, k + BASE, bias, i + Times(low, w), Times(w, BASE - t), rest);
      Split(q, t);
      LowAndHigh(i, low, high, w, BASE - t);
    }
  }

  lemma {:induction false} ReadDeltaIgnoresTheRest(s: Bytes, t: Bytes, i: nat, w: nat, k: nat, bias: nat)
    requires ReadDelta(s, i, w, k, bias).Some?
    ensures var (sum, rest) := ReadDelta(s, i, w, k, bias).value;
      ReadDelta(s + t, i, w, k, bias) == Some((sum, rest + t))
    decreases |s|
  {
    assert (s + t)[0] == s[0] && (s + t)[1..] == s[1..] + t;
    var digit := DigitValue(s[0]).value;
    var threshold := RfcThreshold(k, bias);
    if digit >= threshold {
      var i', w' := i + Times(digit, w), Times(w, BASE - threshold);
      assert ReadDelta(s, i, w, k, bias) == ReadDelta(s[1..], i', w', k + BASE, bias);
      ReadDeltaIgnoresTheRest(s[1..], t, i', w', k + BASE, bias);
    }
  }

  lemma {:induction false} RunAppend(a: Bytes, b: Bytes, st: DecoderState)
    requires Run(a, st).Some?
    ensures Run(a + b, st) == Run(b, Run(a, st).value)
    decreases |a|
  {
    if a == [] {
      assert a + b == b;
    } else {
      ReadDeltaIgnoresTheRest(a, b, st.i, 1, BASE, st.bias);
      var (sum, rest) := ReadDelta(a, st.i, 1, BASE, st.bias).value;
      RunAppend(rest, b, Insert(st, sum));
    }
  }

  function FirstState(input: seq<Rune>): DecoderState {
    DecoderState(INITIAL_N, 0, INITIAL_BIAS, BasicBytes(input))
  }

  /** The decoder state st is as many steps behind the encoder as delta says. */
  ghost predicate Behind(input: seq<Rune>, p: nat, n: nat, basic: nat, s: Progress, st: DecoderState)
    requires p <= |input|
  {
    && st.n <= n
    && st.bias == s.bias
    && st.output == Kept(input, p, n)
    && s.handled == |st.output| && s.handled >= basic
    && (st.i == 0 <==> s.handled == basic)
    && s.delta + st.i == (n - st.n) * (s.handled + 1) + |Below(input[..p], n + 1)|
  }

  /** What the encoder has written reads back to a state that it is delta steps ahead of. */
  ghost predicate InSync(input: seq<Rune>, p: nat, n: nat, basic: nat, s: Progress)
    requires p <= |input|
  {
    && Head(input) <= s.out
    && DELIMITER !in s.out[|Head(input)|..]
    && Run(s.out[|Head(input)|..], FirstState(input)).Some?
    && Behind(input, p, n, basic, s, Run(s.out[|Head(input)|..], FirstState(input)).value)
  }

  /** The decoder inserts the code point where the walk stands. */
  lemma InsertLandsOnTheCodePoint(input: seq<Rune>, p: nat, n: nat, basic: nat, s: Progress, st: DecoderState)
    requires p < |input| && input[p] == n
    requires Behind(input, p, n, basic, s, st)
    ensures Behind(input, p + 1, n, basic, Visit(n, n, basic, s), Insert(st, st.i + s.delta))
  {
    var points := |st.output| + 1;
    var at := |Below(input[..p], n + 1)|;
    DivModUnique(st.i + s.delta, points, n - st.n, at);
    var st' := Insert(st, st.i + s.delta);
    AdaptIsTheRfcs(s.delta, points, st.i == 0);
    assert st'.n == n && st'.i == at + 1;
    KeptGainsMatch(input, p, n);
    BelowSteps(input, p, n);
    assert st.output[..at] == Below(input[..p], n + 1);
    assert st.output[at..] == Below(input[p..], n);
  }

  lemma WrittenDeltaReadsBack(written: Bytes, first: DecoderState, delta: nat)
    requires Run(written, first).Some?
    ensures var st := Run(written, first).value;
      Run(written + VarInt(delta, BASE, st.bias), first) == Some(Insert(st, st.i + delta))
  {
    var st := Run(written, first).value;
    var digits := VarInt(delta, BASE, st.bias);
    RunAppend(written, digits, first);
    VarIntReadsBack(delta, BASE, st.bias, st.i, 1, []);
    assert digits + [] == digits;
  }

  lemma OutputGrows(input: seq<Rune>, out: Bytes, digits: Bytes)
    requires Head(input) <= out
    ensures out + digits == Head(input) + (out[|Head(input)|..] + digits)
  {
    HeadAndTail(input, out);
  }

  lemma WritingKeepsSync(input: seq<Rune>, p: nat, n: nat, basic: nat, s: Progress)
    requires p < |input| && input[p] == n
    requires InSync(input, p, n, basic, s)
    ensures InSync(input, p + 1, n, basic, Visit(n, n, basic, s))
  {
    var written, digits := s.out[|Head(input)|..], VarInt(s.delta, BASE, s.bias);
    var st := Run(written, FirstState(input)).value;
    var s' := Visit(n, n, basic, s);
    WrittenDeltaReadsBack(written, FirstState(input), s.delta);
    InsertLandsOnTheCodePoint(input, p, n, basic, s, st);
    OutputGrows(input, s.out, digits);
    SyncFrom(input, p + 1, n, basic, s', written + digits, Insert(st, st.i + s.delta));
  }

  lemma VisitKeepsSync(input: seq<Rune>, p: nat, n: nat, basic: nat, s: Progress)
    requires p < |input|
    requires InSync(input, p, n, basic, s)
    ensures InSync(input, p + 1, n, basic, Visit(input[p], n, basic, s))
  {
    if input[p] == n {
      WritingKeepsSync(input, p, n, basic, s);
    } else {
      var written := s.out[|Head(input)|..];
      var st := Run(written, FirstState(input)).value;
      WalkedPast(input, p, n, basic, s, st);
      HeadAndTail(input, s.out);
      SyncFrom(input, p + 1, n, basic, Visit(input[p], n, basic, s), written, st);
    }
  }

  lemma SyncFrom(input: seq<Rune>, p: nat, n: nat, basic: nat, s: Progress, written: Bytes, st: DecoderState)
    requires p <= |input| && s.out == Head(input) + written && DELIMITER !in written
    requires Run(written, FirstState(input)) == Some(st)
    requires Behind(input, p, n, basic, s, st)
    ensures InSync(input, p, n, basic, s)
  {
    assert s.out[|Head(input)|..] == written;
  }

  lemma WalkedPast(input: seq<Rune>, p: nat, n: nat, basic: nat, s: Progress, st: DecoderState)
    requires p < |input| && input[p] != n
    requires Behind(input, p, n, basic, s, st)
    ensures Behind(input, p + 1, n, basic, Visit(input[p], n, basic, s), st)
  {
    BelowSteps(input, p, n);
    KeptStaysOnOther(input, p, n);
  }

  lemma {:induction false} PassKeepsSync(input: seq<Rune>, p: nat, n: nat, basic: nat, s: Progress)
    requires p <= |input|
    requires InSync(input, p, n, basic, s)
    ensures InSync(input, |input|, n, basic, Pass(input, p, n, basic, s))
    decreases |input| - p
  {
    if p < |input| {
      VisitKeepsSync(input, p, n, basic, s);
      PassKeepsSync(input, p + 1, n, basic, Visit(input[p], n, basic, s));
    }
  }

  lemma SumOfProducts(a: int, b: int, d: int)
    ensures (a + b) * d == a * d + b * d
  {
  }

  /** Between two walks the delta counts on to the next code point that occurs. */
  lemma AdvanceStaysBehind(input: seq<Rune>, n: nat, m: nat, basic: nat, s: Progress, st: DecoderState)
    requires Behind(input, 0, n, basic, s, st)
    requires n <= m && Below(input, n) == Below(input, m)
    ensures Behind(input, 0, m, basic, Advanced(s, n, m), st)
  {
    NothingBetween(input, n, m);
    SumOfProducts(n - st.n, m - n, s.handled + 1);
    assert (n - st.n) + (m - n) == m - st.n;
  }

  lemma NothingBetween(input: seq<Rune>, n: nat, m: nat)
    requires n <= m && Below(input, n) == Below(input, m)
    ensures Kept(input, 0, n) == Kept(input, 0, m)
    ensures Below(input[..0], n + 1) == Below(input[..0], m + 1) == []
  {
    KeptEnds(input, n);
    KeptEnds(input, m);
    assert input[..0] == [];
  }

  lemma AdvanceKeepsSync(input: seq<Rune>, n: nat, m: nat, basic: nat, s: Progress)
    requires InSync(input, 0, n, basic, s)
    requires n <= m && Below(input, n) == Below(input, m)
    ensures InSync(input, 0, m, basic, Advanced(s, n, m))
  {
    AdvanceStaysBehind(input, n, m, basic, s, Run(s.out[|Head(input)|..], FirstState(input)).value);
  }

  lemma NextWalkKeepsSync(input: seq<Rune>, n: nat, basic: nat, s: Progress)
    requires InSync(input, |input|, n, basic, s)
    ensures InSync(input, 0, n + 1, basic, s.(delta := s.delta + 1))
    ensures s.handled == |Below(input, n + 1)|
  {
    KeptEnds(input, n);
    KeptEnds(input, n + 1);
    assert input[..|input|] == input;
    var st := Run(s.out[|Head(input)|..], FirstState(input)).value;
    SumOfProducts(n - st.n, 1, s.handled + 1);
  }

  /** What the deltas after the basic code points of the input decode to. */
  function ReadBack(input: seq<Rune>, out: Bytes): Option<seq<int>> {
    if !(Head(input) <= out) || DELIMITER in out[|Head(input)|..] then None
    else match Run(out[|Head(input)|..], FirstState(input))
      case None => None
      case Some(st) => Some(st.output)
  }

  lemma SyncedAtTheEnd(input: seq<Rune>, n: nat, basic: nat, s: Progress)
    requires InSync(input, 0, n, basic, s)
    requires |input| <= |Below(input, n)|
    ensures ReadBack(input, s.out) == Some(input)
  {
    KeptEnds(input, n);
    BelowIsBelow(input, n);
    BelowKeepsAll(input, n);
  }

  lemma RoundKeepsSync(input: seq<Rune>, n: nat, m: nat, basic: nat, s: Progress)
    requires InSync(input, 0, n, basic, s)
    requires n <= m && Below(input, n) == Below(input, m)
    ensures InSync(input, 0, m + 1, basic, Round(input, n, m, basic, s))
  {
    AdvanceKeepsSync(input, n, m, basic, s);
    WholeWalkKeepsSync(input, m, basic, Advanced(s, n, m));
  }

  lemma WholeWalkKeepsSync(input: seq<Rune>, n: nat, basic: nat, s: Progress)
    requires InSync(input, 0, n, basic, s)
    ensures var s' := Pass(input, 0, n, basic, s);
      InSync(input, 0, n + 1, basic, s'.(delta := s'.delta + 1))
  {
    PassKeepsSync(input, 0, n, basic, s);
    NextWalkKeepsSync(input, n, basic, Pass(input, 0, n, basic, s));
  }

  lemma OneRound(input: seq<Rune>, n: nat, basic: nat, s: Progress)
    requires s.handled == |Below(input, n)| && s.handled < |input|
    ensures n <= LeastFrom(input, n)
    ensures var m := LeastFrom(input, n);
      var s' := Round(input, n, m, basic, s);
      s.handled < s'.handled == |Below(input, m + 1)| && Rounds(input, n, basic, s) == Rounds(input, m + 1, basic, s')
  {
    RoundGrows(input, n, basic, s);
  }

  lemma {:induction false} RoundsReadBack(input: seq<Rune>, n: nat, basic: nat, s: Progress)
    requires InSync(input, 0, n, basic, s)
    requires s.handled == |Below(input, n)|
    ensures ReadBack(input, Rounds(input, n, basic, s)) == Some(input)
    decreases |input| - s.handled
  {
    if s.handled >= |input| {
      SyncedAtTheEnd(input, n, basic, s);
    } else {
      RoundGrows(input, n, basic, s);
      NextIsPresent(input, n);
      var m := LeastFrom(input, n);
      RoundKeepsSync(input, n, m, basic, s);
      var s' := Round(input, n, m, basic, s);
      RoundsReadBack(input, m + 1, basic, s');
      OneRound(input, n, basic, s);
    }
  }

  // ------------------------------------------------------------------- theorems

  lemma {:induction false} LastDelimiterAfter(head: Bytes, tail: Bytes)
    requires DELIMITER !in tail
    ensures LastDelimiter(head + [DELIMITER] + tail) == |head|
    decreases |tail|
  {
    var s := head + [DELIMITER] + tail;
    if tail != [] {
      var shorter := tail[..|tail| - 1];
      assert s[|s| - 1] == tail[|tail| - 1];
      assert s[..|s| - 1] == head + [DELIMITER] + shorter;
      LastDelimiterAfter(head, shorter);
    }
  }

  lemma {:induction false} NoDelimiterIsZero(s: Bytes)
    requires DELIMITER !in s
    ensures LastDelimiter(s) == 0
    decreases |s|
  {
    if s != [] {
      NoDelimiterIsZero(s[..|s| - 1]);
    }
  }

  lemma StartInSync(input: seq<Rune>)
    ensures InSync(input, 0, INITIAL_N, |BasicBytes(input)|, Start(input))
  {
    KeptEnds(input, INITIAL_N);
    assert input[..0] == [];
  }

  lemma HeadIsSkipped(basics: Bytes, tail: Bytes, s: Bytes)
    requires DELIMITER !in tail
    requires s == (basics + if basics == [] then [] else [DELIMITER]) + tail
    ensures LastDelimiter(s) == |basics| && s[..|basics|] == basics
    ensures (if |basics| > 0 then s[|basics| + 1..] else s) == tail
  {
    if basics == [] {
      NoDelimiterIsZero(tail);
      assert s == tail;
    } else {
      LastDelimiterAfter(basics, tail);
    }
  }

  lemma HeadAndTail(input: seq<Rune>, out: Bytes)
    requires Head(input) <= out
    ensures out == Head(input) + out[|Head(input)|..]
  {
  }

  /** The decoder reads the basic code points first, and then what comes after them. */
  lemma DecodeReadsBack(input: seq<Rune>, out: Bytes)
    requires ReadBack(input, out).Some?
    ensures Decode(out) == ReadBack(input, out)
  {
    var basics := BasicBytes(input);
    BelowIsBelow(input, INITIAL_N);
    HeadAndTail(input, out);
    HeadIsSkipped(basics, out[|Head(input)|..], out);
  }

  /** Decoding what the encoder writes gives the code points back, for every label. */
  lemma RoundTrip(input: seq<Rune>)
    ensures Decode(Encoding(input)) == Some(input)
  {
    StartInSync(input);
    RoundsReadBack(input, INITIAL_N, |BasicBytes(input)|, Start(input));
    DecodeReadsBack(input, Encoding(input));
  }

  /** No two labels share an encoding. */
  lemma EncodingIsInjective(a: seq<Rune>, b: seq<Rune>)
    requires Encoding(a) == Encoding(b)
    ensures a == b
  {
    RoundTrip(a);
    RoundTrip(b);
  }

  // --------------------------------------------------------------- the encoder

  lemma OneMoreDigit(digits: Bytes, q: nat, k: nat, bias: nat)
    requires q >= Threshold(k, bias)
    ensures var t := Threshold(k, bias);
      digits + VarInt(q, k, bias) == (digits + [Digit(LowDigit(q, t))]) + VarInt(HighPart(q, t), k + BASE, bias)
  {
    var t := Threshold(k, bias);
    var digit, rest := [Digit(LowDigit(q, t))], VarInt(HighPart(q, t), k + BASE, bias);
    assert digits + (digit + rest) == (digits + digit) + rest;
  }

  /** The digits of one delta, least significant first. */
  method WriteVarInt(delta: nat, bias: nat) returns (digits: Bytes)
    ensures digits == VarInt(delta, BASE, bias)
  {
    digits := [];
    var q := delta;
    var k := BASE;
    var t := Threshold(k, bias);
    while q >= t
      invariant t == Threshold(k, bias)
      invariant q >= 0 && k >= 0
      invariant digits + VarInt(q, k, bias) == VarInt(delta, BASE, bias)
      decreases q
    {
      OneMoreDigit(digits, q, k, bias);
      digits := digits + [Digit(t + (q - t) % (BASE - t))];
      q := (q - t) / (BASE - t);
      k := k + BASE;
      t := Threshold(k, bias);
    }
    digits := digits + [Digit(q)];
  }

  method CopyBasics(input: seq<Rune>) returns (out: Bytes)
    ensures out == BasicBytes(input)
  {
    out := [];
    for j := 0 to |input|
      invariant out == Below(input[..j], INITIAL_N)
    {
      BelowSteps(input, j, INITIAL_N - 1);
      if input[j] < 0x80 {
        out := out + [input[j]];
      }
    }
    assert input[..|input|] == input;
  }

  method LeastCodePointFrom(input: seq<Rune>, n: nat) returns (m: nat)
    ensures m == LeastFrom(input, n)
  {
    m := MAX_INT32;
    for j := 0 to |input|
      invariant m == MAX_INT32 || (m in input[..j] && n <= m)
      invariant forall r :: r in input[..j] && n <= r ==> m <= r
    {
      assert input[..j + 1] == input[..j] + [input[j]];
      if input[j] >= n && input[j] < m {
        m := input[j];
      }
    }
    assert input[..|input|] == input;
  }

  method PunycodeEncode(input: seq<Rune>) returns (out: Bytes)
    ensures out == Encoding(input)
    ensures Decode(out) == Some(input)
  {
    var n: nat := INITIAL_N;
    var delta: nat := 0;
    var bias: nat := INITIAL_BIAS;
    out := CopyBasics(input);
    var basic := |out|;
    var handled := basic;
    if basic > 0 {
      out := out + [DELIMITER];
    }
    assert Progress(delta, bias, handled, out) == Start(input);
    while handled < |input|
      invariant handled == |Below(input, n)|
      invariant Rounds(input, n, basic, Progress(delta, bias, handled, out)) == Encoding(input)
      decreases |input| - handled
    {
      OneRound(input, n, basic, Progress(delta, bias, handled, out));
      n, delta, bias, handled, out := EncodeRound(input, n, basic, delta, bias, handled, out);
    }
    RoundTrip(input);
  }

  /** One round: it goes on to the least code point that is left, and writes where it occurs. */
  method EncodeRound(input: seq<Rune>, n0: nat, basic: nat,
                     delta0: nat, bias0: nat, handled0: nat, out0: Bytes)
    returns (n: nat, delta: nat, bias: nat, handled: nat, out: Bytes)
    requires |Below(input, n0)| < |input|
    ensures n0 <= LeastFrom(input, n0) && n == LeastFrom(input, n0) + 1
    ensures Progress(delta, bias, handled, out)
         == Round(input, n0, LeastFrom(input, n0), basic, Progress(delta0, bias0, handled0, out0))
  {
    NextIsPresent(input, n0);
    n := LeastCodePointFrom(input, n0);
    delta := delta0 + (n - n0) * (handled0 + 1);
    assert Progress(delta, bias0, handled0, out0) == Advanced(Progress(delta0, bias0, handled0, out0), n0, n);
    delta, bias, handled, out := InsertEvery(input, n, basic, delta, bias0, handled0, out0);
    delta := delta + 1;
    n := n + 1;
  }

  /** The walk over the input that writes a delta at every occurrence of n. */
  method InsertEvery(input: seq<Rune>, n: nat, basic: nat,
                     delta0: nat, bias0: nat, handled0: nat, out0: Bytes)
    returns (delta: nat, bias: nat, handled: nat, out: Bytes)
    ensures Progress(delta, bias, handled, out)
         == Pass(input, 0, n, basic, Progress(delta0, bias0, handled0, out0))
  {
    delta, bias, handled, out := delta0, bias0, handled0, out0;
    for j := 0 to |input|
      invariant Pass(input, j, n, basic, Progress(delta, bias, handled, out))
             == Pass(input, 0, n, basic, Progress(delta0, bias0, handled0, out0))
    {
      var c := input[j];
      if c < n {
        delta := delta + 1;
      }
      if c == n {
        var digits := WriteVarInt(delta, bias);
        out := out + digits;
        bias := PunyAdapt(delta, handled + 1, handled == basic);
        delta := 0;
        handled := handled + 1;
      }
    }
  }
}
