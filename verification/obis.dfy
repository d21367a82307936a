/** OBIS identifiers (`src/obis.rs`): the value groups A to F of IEC 62056-61
    written as `[A-][B:]C.D.E.F`, with `.` (not the standard's `*`) before F.
    Parsing is the anchored pattern
      `^(?:(\d+)-)?(?:(\d+):)?(\d+)\.(\d+)(?:\.(\d+))?(?:\.(\d+))?$`
    followed by a `u8` conversion of every captured group. */
module Obis {
  import opened Common

  /** Rust `u8`, as an integer in 0..255 rather than the bit-vector
      `Common.byte`: OBIS values are read and written in decimal, which is
      integer arithmetic. */
  type u8 = x: int | 0 <= x < 256

  datatype ObisIdentifier = ObisIdentifier(a: Option<u8>, b: Option<u8>, c: u8, d: u8, e: u8, f: u8)

  // ---------------------------------------------------------------------
  // Decimal digit runs

  predicate IsDigit(ch: char) {
    '0' <= ch <= '9'
  }

  predicate AllDigits(s: string) {
    forall i :: 0 <= i < |s| ==> IsDigit(s[i])
  }

  /** What one `(\d+)` group captures. */
  predicate IsGroup(s: string) {
    |s| > 0 && AllDigits(s)
  }

  /** The length of the run of digits `s` starts with. */
  function DigitRun(s: string): (n: nat)
    ensures n <= |s|
    ensures AllDigits(s[..n])
    ensures n < |s| ==> !IsDigit(s[n])
  {
    if |s| == 0 || !IsDigit(s[0]) then 0
    else
      var n := 1 + DigitRun(s[1..]);
      assert s[..n] == [s[0]] + s[1..][..n - 1];
      n
  }

  /** A run of digits ended by the end of the text or a non-digit is taken whole. */
  lemma {:induction false} DigitRunOf(g: string, t: string)
    requires AllDigits(g)
    requires t == [] || !IsDigit(t[0])
    ensures DigitRun(g + t) == |g|
    decreases |g|
  {
    if |g| > 0 {
      assert (g + t)[1..] == g[1..] + t;
      DigitRunOf(g[1..], t);
    } else {
      assert g + t == t;
    }
  }

  /** The value of a run of decimal digits, as `u8::from_str_radix(_, 10)`
      computes it before its range check. */
  function DecimalValue(s: string): nat
    requires AllDigits(s)
    decreases |s|
  {
    if |s| == 0 then 0
    else DecimalValue(s[..|s| - 1]) * 10 + (s[|s| - 1] as int - '0' as int)
  }

  function DigitChar(n: nat): (ch: char)
    requires n < 10
    ensures IsDigit(ch) && ch as int - '0' as int == n
  {
    (n + '0' as int) as char
  }

  /** `n` in decimal without leading zeros, as `{}` formats it. */
  function Decimal(n: nat): (s: string)
    ensures IsGroup(s)
    ensures DecimalValue(s) == n
    ensures |s| > 1 ==> s[0] != '0'
    decreases n
  {
    if n < 10 then [DigitChar(n)]
    else
      var s := Decimal(n / 10) + [DigitChar(n % 10)];
      assert s[..|s| - 1] == Decimal(n / 10);
      s
  }

  /** Leading zeros do not change the value: `096` reads as 96. */
  lemma {:induction false} LeadingZero(s: string)
    requires AllDigits(s)
    ensures DecimalValue(['0'] + s) == DecimalValue(s)
    decreases |s|
  {
    if |s| > 0 {
      var z := ['0'] + s;
      assert z[..|z| - 1] == ['0'] + s[..|s| - 1];
      LeadingZero(s[..|s| - 1]);
    }
  }

  /** `u8::from_str_radix(g, 10)` for a captured group: the value, or an
      overflow error when it exceeds 255. */
  function ToU8(g: string): (r: Option<u8>)
    requires AllDigits(g)
    ensures r.Some? <==> DecimalValue(g) < 256
    ensures r.Some? ==> r.value == DecimalValue(g)
  {
    var v := DecimalValue(g);
    if v < 256 then Some(v) else None
  }

  // ---------------------------------------------------------------------
  // The pattern

  /** The six capture groups of a successful match. */
  datatype Captures = Captures(
    a: Option<string>, b: Option<string>, c: string, d: string,
    e: Option<string>, f: Option<string>)

  /** Captures the pattern can produce: every group a digit run, and a sixth
      group only after a fifth (a single trailing `.x` is taken by the
      fifth group, which is tried first). */
  predicate WellFormed(caps: Captures) {
    && (caps.a.Some? ==> IsGroup(caps.a.value))
    && (caps.b.Some? ==> IsGroup(caps.b.value))
    && IsGroup(caps.c) && IsGroup(caps.d)
    && (caps.e.Some? ==> IsGroup(caps.e.value))
    && (caps.f.Some? ==> IsGroup(caps.f.value))
    && (caps.f.Some? ==> caps.e.Some?)
  }

  function Prefixed(g: Option<string>, sep: char): string {
    if g.Some? then g.value + [sep] else []
  }

  function Dotted(g: Option<string>): string {
    if g.Some? then ['.'] + g.value else []
  }

  /** The text a set of captures was matched from. */
  function Render(caps: Captures): string {
    Prefixed(caps.a, '-') + Prefixed(caps.b, ':') + caps.c + ['.'] + caps.d + Dotted(caps.e) + Dotted(caps.f)
  }

  /** `(?:(\d+)<sep>)?`: a digit run followed by `sep`, or nothing. */
  function OptionalGroup(s: string, sep: char): (r: (Option<string>, string))
    ensures r.0.Some? ==> IsGroup(r.0.value) && s == r.0.value + [sep] + r.1
    ensures r.0.None? ==> r.1 == s
    ensures s == Prefixed(r.0, sep) + r.1
  {
    var n := DigitRun(s);
    if 0 < n < |s| && s[n] == sep then
      assert s == s[..n] + [sep] + s[n + 1..];
      (Some(s[..n]), s[n + 1..])
    else (None, s)
  }

  /** `(?:\.(\d+))?`: a dot and a digit run, or nothing. */
  function DotGroup(s: string): (r: (Option<string>, string))
    ensures r.0.Some? ==> IsGroup(r.0.value) && s == ['.'] + r.0.value + r.1
    ensures r.0.None? ==> r.1 == s
    ensures s == Dotted(r.0) + r.1
  {
    if |s| > 0 && s[0] == '.' && DigitRun(s[1..]) > 0 then
      var n := DigitRun(s[1..]);
      assert s == ['.'] + s[1..][..n] + s[1 + n..];
      (Some(s[1..][..n]), s[1 + n..])
    else (None, s)
  }

  lemma SplitAt(s: string, i: nat)
    requires i <= |s|
    ensures s == s[..i] + s[i..]
  {
  }

  lemma SplitAround(s: string, i: nat)
    requires i < |s|
    ensures s == s[..i] + [s[i]] + s[i + 1..]
  {
  }

  /** `(\d+)(?:\.(\d+))?(?:\.(\d+))?$`: groups D, E and F and the end of the text. */
  function MatchTail(s: string): (r: Option<(string, Option<string>, Option<string>)>)
    ensures r.Some? ==> IsGroup(r.value.0)
    ensures r.Some? ==> (r.value.1.Some? ==> IsGroup(r.value.1.value))
    ensures r.Some? ==> (r.value.2.Some? ==> IsGroup(r.value.2.value))
    ensures r.Some? ==> (r.value.2.Some? ==> r.value.1.Some?)
    ensures r.Some? ==> s == r.value.0 + Dotted(r.value.1) + Dotted(r.value.2)
  {
    var d := DigitRun(s);
    if d == 0 then None
    else
      var (e, s5) := DotGroup(s[d..]);
      var (f, s6) := DotGroup(s5);
      if s6 != [] || (f.Some? && e.None?) then None
      else
        SplitAt(s, d);
        assert s[d..] == Dotted(e) + Dotted(f);
        Some((s[..d], e, f))
  }

  /** `(\d+)\.` followed by `MatchTail`: groups C to F, after the optional
      groups `a` and `b` have been taken. */
  function MatchValues(a: Option<string>, b: Option<string>, s: string): (r: Option<Captures>)
    ensures r.Some? ==> r.value.a == a && r.value.b == b
    ensures r.Some? ==> IsGroup(r.value.c) && IsGroup(r.value.d)
    ensures r.Some? ==> (r.value.e.Some? ==> IsGroup(r.value.e.value))
    ensures r.Some? ==> (r.value.f.Some? ==> IsGroup(r.value.f.value))
    ensures r.Some? ==> (r.value.f.Some? ==> r.value.e.Some?)
    ensures r.Some? ==> s == r.value.c + ['.'] + (r.value.d + Dotted(r.value.e) + Dotted(r.value.f))
  {
    var c := DigitRun(s);
    if c == 0 || c == |s| || s[c] != '.' then None
    else
      match MatchTail(s[c + 1..])
      case None => None
      case Some((d, e, f)) =>
        SplitAround(s, c);
        Some(Captures(a, b, s[..c], d, e, f))
  }

  /** Gluing the pieces `Match` peels off back together. */
  lemma Assemble(s: string, pa: string, s1: string, pb: string, s2: string, c: string, s3: string,
                 d: string, de: string, df: string)
    requires s == pa + s1 && s1 == pb + s2 && s2 == c + ['.'] + s3 && s3 == d + de + df
    ensures s == pa + pb + c + ['.'] + d + de + df
  {
  }

  /** `ID_PATTERN.captures(id)`. Every `\d+` in the pattern is followed by a
      separator or the end, so it always takes a whole digit run, and the
      pattern is matched left to right without a choice that backtracking
      could revisit. `\d` is read as an ASCII digit. */
  function Match(s: string): (r: Option<Captures>)
    ensures r.Some? ==> WellFormed(r.value) && Render(r.value) == s
  {
    var (a, s1) := OptionalGroup(s, '-');
    var (b, s2) := OptionalGroup(s1, ':');
    var r := MatchValues(a, b, s2);
    if r.Some? then
      var caps := r.value;
      Assemble(s, Prefixed(a, '-'), s1, Prefixed(b, ':'), s2, caps.c,
               caps.d + Dotted(caps.e) + Dotted(caps.f), caps.d, Dotted(caps.e), Dotted(caps.f));
      r
    else r
  }

  /** `(\d+)<sep>` is taken whole when the text starts with it. */
  lemma OptionalGroupTake(g: string, sep: char, t: string)
    requires IsGroup(g) && !IsDigit(sep)
    ensures OptionalGroup(g + [sep] + t, sep) == (Some(g), t)
  {
    var s := g + [sep] + t;
    assert s == g + ([sep] + t);
    DigitRunOf(g, [sep] + t);
    assert s[..|g|] == g;
    assert s[|g| + 1..] == t;
  }

  /** A digit run followed by some other separator leaves the group out. */
  lemma OptionalGroupSkip(g: string, other: char, t: string, sep: char)
    requires IsGroup(g) && !IsDigit(other) && other != sep
    ensures OptionalGroup(g + [other] + t, sep) == (None, g + [other] + t)
  {
    var s := g + [other] + t;
    assert s == g + ([other] + t);
    DigitRunOf(g, [other] + t);
  }

  /** `\.(\d+)` is taken whole when followed by the end or another dot. */
  lemma DotGroupTake(g: string, t: string)
    requires IsGroup(g) && (t == [] || t[0] == '.')
    ensures DotGroup(['.'] + g + t) == (Some(g), t)
  {
    var s := ['.'] + g + t;
    assert s[1..] == g + t;
    DigitRunOf(g, t);
    assert s[1..][..|g|] == g;
    assert s[1 + |g|..] == t;
  }

  /** The text after group D: empty, or a dot and a digit run, then maybe another. */
  lemma TailMatch(e: Option<string>, f: Option<string>)
    requires e.Some? ==> IsGroup(e.value)
    requires f.Some? ==> IsGroup(f.value)
    requires f.Some? ==> e.Some?
    ensures DotGroup(Dotted(e) + Dotted(f)) == (e, Dotted(f))
    ensures DotGroup(Dotted(f)) == (f, [])
  {
    if f.Some? {
      DotGroupTake(f.value, []);
      assert Dotted(f) == ['.'] + f.value + [];
      DotGroupTake(e.value, Dotted(f));
    } else if e.Some? {
      DotGroupTake(e.value, []);
      assert Dotted(e) + Dotted(f) == ['.'] + e.value + [];
    }
  }

  lemma MatchTailRender(d: string, e: Option<string>, f: Option<string>)
    requires IsGroup(d)
    requires e.Some? ==> IsGroup(e.value)
    requires f.Some? ==> IsGroup(f.value)
    requires f.Some? ==> e.Some?
    ensures MatchTail(d + Dotted(e) + Dotted(f)) == Some((d, e, f))
  {
    var s := d + Dotted(e) + Dotted(f);
    var t := Dotted(e) + Dotted(f);
    assert s == d + t;
    TailMatch(e, f);
    assert t == [] || t[0] == '.';
    DigitRunOf(d, t);
    assert s[..|d|] == d && s[|d|..] == t;
  }

  lemma MatchValuesRender(caps: Captures)
    requires WellFormed(caps)
    ensures MatchValues(caps.a, caps.b, caps.c + ['.'] + (caps.d + Dotted(caps.e) + Dotted(caps.f))) == Some(caps)
  {
    var t := caps.d + Dotted(caps.e) + Dotted(caps.f);
    var s := caps.c + ['.'] + t;
    assert s == caps.c + (['.'] + t);
    DigitRunOf(caps.c, ['.'] + t);
    assert s[..|caps.c|] == caps.c && s[|caps.c|] == '.' && s[|caps.c| + 1..] == t;
    MatchTailRender(caps.d, caps.e, caps.f);
  }

  lemma RegroupRender(pa: string, pb: string, c: string, d: string, de: string, df: string)
    ensures pa + pb + c + ['.'] + d + de + df == pa + (pb + (c + ['.'] + (d + de + df)))
  {
  }

  /** The pattern matches the text of any well-formed captures, and captures
      exactly them. */
  lemma MatchRender(caps: Captures)
    requires WellFormed(caps)
    ensures Match(Render(caps)) == Some(caps)
  {
    var pa, pb := Prefixed(caps.a, '-'), Prefixed(caps.b, ':');
    var s3 := caps.d + Dotted(caps.e) + Dotted(caps.f);
    var s2 := caps.c + ['.'] + s3;
    var s1 := pb + s2;
    RegroupRender(pa, pb, caps.c, caps.d, Dotted(caps.e), Dotted(caps.f));
    assert Render(caps) == pa + s1;
    assert s2 == caps.c + ['.'] + s3;
    if caps.b.Some? {
      assert s1 == caps.b.value + [':'] + s2;
      OptionalGroupTake(caps.b.value, ':', s2);
    } else {
      OptionalGroupSkip(caps.c, '.', s3, ':');
    }
    if caps.a.Some? {
      assert pa + s1 == caps.a.value + ['-'] + s1;
      OptionalGroupTake(caps.a.value, '-', s1);
    } else if caps.b.Some? {
      assert pa + s1 == caps.b.value + [':'] + s2;
      OptionalGroupSkip(caps.b.value, ':', s2, '-');
    } else {
      assert pa + s1 == s2;
      OptionalGroupSkip(caps.c, '.', s3, '-');
    }
    MatchValuesRender(caps);
  }

  /** Characterisation of the pattern by the text it matches. */
  lemma MatchIff(s: string, caps: Captures)
    ensures Match(s) == Some(caps) <==> WellFormed(caps) && Render(caps) == s
  {
    if WellFormed(caps) && Render(caps) == s {
      MatchRender(caps);
    }
  }

  // ---------------------------------------------------------------------
  // From captures to an identifier

  /** A captured optional group and the value it stands for. */
  predicate GroupDenotes(g: Option<string>, v: Option<u8>)
    requires g.Some? ==> AllDigits(g.value)
  {
    g.Some? == v.Some? && (g.Some? ==> DecimalValue(g.value) == v.value)
  }

  /** `id` is what the captures say: every present group read in decimal,
      group E present, and F defaulting to 255 when absent. */
  predicate Denotes(caps: Captures, id: ObisIdentifier)
    requires WellFormed(caps)
  {
    && GroupDenotes(caps.a, id.a)
    && GroupDenotes(caps.b, id.b)
    && DecimalValue(caps.c) == id.c
    && DecimalValue(caps.d) == id.d
    && caps.e.Some? && DecimalValue(caps.e.value) == id.e
    && (if caps.f.Some? then DecimalValue(caps.f.value) == id.f else id.f == 255)
  }

  predicate FitsU8(g: Option<string>)
    requires g.Some? ==> AllDigits(g.value)
  {
    g.Some? ==> DecimalValue(g.value) < 256
  }

  /** Groups A to D, where present, fit in a `u8`. */
  predicate LeadFits(caps: Captures)
    requires WellFormed(caps)
  {
    FitsU8(caps.a) && FitsU8(caps.b) && DecimalValue(caps.c) < 256 && DecimalValue(caps.d) < 256
  }

  /** Captures that stand for some identifier. */
  predicate Fits(caps: Captures)
    requires WellFormed(caps)
  {
    LeadFits(caps) && caps.e.Some? && FitsU8(caps.e) && FitsU8(caps.f)
  }

  /** Every identifier the captures could stand for fits them. */
  lemma DenotesFits(caps: Captures, id: ObisIdentifier)
    requires WellFormed(caps) && Denotes(caps, id)
    ensures Fits(caps)
  {
  }

  /** An optional group converted with `u8::from_str_radix`, `None` on overflow. */
  function OptionalU8(g: Option<string>): (r: Option<Option<u8>>)
    requires g.Some? ==> AllDigits(g.value)
    ensures r.Some? <==> FitsU8(g)
    ensures r.Some? ==> GroupDenotes(g, r.value)
  {
    if g.None? then Some(None)
    else
      match ToU8(g.value)
      case None => None
      case Some(v) => Some(Some(v))
  }

  /** The identifier the captures stand for, or `None` when a group does not
      fit in a `u8` or group E is missing. */
  function Values(caps: Captures): (r: Option<ObisIdentifier>)
    requires WellFormed(caps)
    ensures r.Some? <==> Fits(caps)
    ensures r.Some? ==> Denotes(caps, r.value)
  {
    var a, b := OptionalU8(caps.a), OptionalU8(caps.b);
    var c, d := ToU8(caps.c), ToU8(caps.d);
    var e := if caps.e.Some? then ToU8(caps.e.value) else None;
    var f := if caps.f.Some? then ToU8(caps.f.value) else Some(255);
    if a.Some? && b.Some? && c.Some? && d.Some? && e.Some? && f.Some? then
      Some(ObisIdentifier(a.value, b.value, c.value, d.value, e.value, f.value))
    else None
  }

  /** The captures determine the identifier. */
  lemma {:induction false} DenotesUnique(caps: Captures, id: ObisIdentifier)
    requires WellFormed(caps) && Denotes(caps, id)
    ensures Values(caps) == Some(id)
  {
    DenotesFits(caps, id);
    var v := Values(caps).value;
    assert v.a == id.a && v.b == id.b;
  }

  // ---------------------------------------------------------------------
  // `ObisIdentifier::parse` as written

  /** Why the closure given to `map` panics. */
  datatype PanicReason =
    | Overflow   // `u8::from_str_radix(..).unwrap()` on a group above 255
    | MissingE   // `cap.get(5) ... .unwrap()` when the optional fifth group did not participate

  datatype Outcome = Returned(id: Option<ObisIdentifier>) | Panicked(reason: PanicReason)

  /** The closure of `parse`: the groups unwrapped in the order A, B, C, D, E,
      F, so the first failing unwrap decides the panic. */
  function Build(caps: Captures): (r: Outcome)
    requires WellFormed(caps)
    ensures r.Returned? <==> Fits(caps)
    ensures r.Returned? ==> r.id.Some? && Denotes(caps, r.id.value)
    ensures r == Panicked(MissingE) <==> LeadFits(caps) && caps.e.None?
  {
    var a, b := OptionalU8(caps.a), OptionalU8(caps.b);
    var c, d := ToU8(caps.c), ToU8(caps.d);
    if a.None? || b.None? || c.None? || d.None? then Panicked(Overflow)
    else if caps.e.None? then Panicked(MissingE)
    else
      var e := ToU8(caps.e.value);
      if e.None? then Panicked(Overflow)
      else if caps.f.None? then Returned(Some(ObisIdentifier(a.value, b.value, c.value, d.value, e.value, 255)))
      else
        var f := ToU8(caps.f.value);
        if f.None? then Panicked(Overflow)
        else Returned(Some(ObisIdentifier(a.value, b.value, c.value, d.value, e.value, f.value)))
  }

  /** `ObisIdentifier::parse` exactly as written: `None` when the pattern does
      not match, and a panic when a captured group overflows a `u8` or group E
      is absent. */
  function ParseAsWritten(id: string): (r: Outcome)
    ensures r == Returned(None) <==> Match(id).None?
    ensures r.Panicked? <==> Match(id).Some? && !Fits(Match(id).value)
  {
    match Match(id)
    case None => Returned(None)
    case Some(caps) => Build(caps)
  }

  /** `ObisIdentifier::parse` as its `Option` result promises: `None` for
      every text that does not stand for an identifier, never a panic. */
  function Parse(id: string): (r: Option<ObisIdentifier>)
    ensures r.Some? ==> exists caps :: WellFormed(caps) && Render(caps) == id && Denotes(caps, r.value)
  {
    match Match(id)
    case None => None
    case Some(caps) => Values(caps)
  }

  /** Every text that stands for an identifier parses to it. */
  lemma ParseComplete(caps: Captures, id: ObisIdentifier)
    requires WellFormed(caps) && Denotes(caps, id)
    ensures Parse(Render(caps)) == Some(id)
  {
    MatchRender(caps);
    DenotesUnique(caps, id);
  }

  /** `Parse` characterised by the text of the captures and the values they
      denote. */
  lemma ParseIff(s: string, id: ObisIdentifier)
    ensures Parse(s) == Some(id) <==>
            exists caps :: WellFormed(caps) && Render(caps) == s && Denotes(caps, id)
  {
    if caps :| WellFormed(caps) && Render(caps) == s && Denotes(caps, id) {
      ParseComplete(caps, id);
    }
  }

  /** Where the source does not panic it returns what `Parse` returns; it
      panics exactly when the pattern matches but `Parse` finds no identifier. */
  lemma ParseAsWrittenAgrees(s: string)
    ensures ParseAsWritten(s).Returned? ==> ParseAsWritten(s).id == Parse(s)
    ensures ParseAsWritten(s).Panicked? <==> Match(s).Some? && Parse(s).None?
  {
    if Match(s).Some? && Build(Match(s).value).Returned? {
      DenotesUnique(Match(s).value, Build(Match(s).value).id.value);
    }
  }

  // ---------------------------------------------------------------------
  // `Display`

  /** The captures `Display` writes for an identifier: A and B when present,
      then C to F, every value in decimal. */
  function CapturesOf(id: ObisIdentifier): (caps: Captures)
    ensures WellFormed(caps) && Denotes(caps, id)
    ensures caps.e.Some? && caps.f.Some?
    ensures Canonical(caps)
  {
    Captures(
      if id.a.Some? then Some(Decimal(id.a.value)) else None,
      if id.b.Some? then Some(Decimal(id.b.value)) else None,
      Decimal(id.c), Decimal(id.d), Some(Decimal(id.e)), Some(Decimal(id.f)))
  }

  /** `ObisIdentifier::fmt`, as `to_string` returns it. */
  function Format(id: ObisIdentifier): string {
    Render(CapturesOf(id))
  }

  /** Parsing the text `Display` writes gives the identifier back. */
  lemma RoundTrip(id: ObisIdentifier)
    ensures Parse(Format(id)) == Some(id)
  {
    ParseComplete(CapturesOf(id), id);
  }

  /** A digit run as `{}` writes numbers: no leading zero unless it is `0`. */
  predicate CanonicalGroup(g: string) {
    |g| > 1 ==> g[0] != '0'
  }

  /** Captures with every present group written without leading zeros. */
  predicate Canonical(caps: Captures) {
    && (caps.a.Some? ==> CanonicalGroup(caps.a.value))
    && (caps.b.Some? ==> CanonicalGroup(caps.b.value))
    && CanonicalGroup(caps.c) && CanonicalGroup(caps.d)
    && (caps.e.Some? ==> CanonicalGroup(caps.e.value))
    && (caps.f.Some? ==> CanonicalGroup(caps.f.value))
  }

  /** A digit run that does not start with `0` stands for a positive number. */
  lemma {:induction false} PositiveValue(g: string)
    requires IsGroup(g) && g[0] != '0'
    ensures DecimalValue(g) >= 1
    decreases |g|
  {
    if |g| > 1 {
      var p := g[..|g| - 1];
      assert p[0] == g[0];
      PositiveValue(p);
    }
  }

  /** `{}` gives back every digit run without leading zeros from its value. */
  lemma {:induction false} DecimalOfValue(g: string)
    requires IsGroup(g) && CanonicalGroup(g)
    ensures Decimal(DecimalValue(g)) == g
    decreases |g|
  {
    var last := g[|g| - 1];
    var d := last as int - '0' as int;
    if |g| == 1 {
      assert g[..0] == [];
      assert DigitChar(d) == last;
    } else {
      var p := g[..|g| - 1];
      assert p[0] == g[0];
      PositiveValue(p);
      DecimalOfValue(p);
      var n := DecimalValue(g);
      assert n == DecimalValue(p) * 10 + d;
      assert n / 10 == DecimalValue(p) && n % 10 == d;
      assert DigitChar(d) == last;
      assert g == p + [last];
    }
  }

  /** A text without leading zeros that writes all six positions is what
      `Display` writes for the identifier it stands for. */
  lemma CanonicalFormat(caps: Captures, id: ObisIdentifier)
    requires WellFormed(caps) && Denotes(caps, id) && Canonical(caps) && caps.f.Some?
    ensures Format(id) == Render(caps)
  {
    if caps.a.Some? { DecimalOfValue(caps.a.value); }
    if caps.b.Some? { DecimalOfValue(caps.b.value); }
    DecimalOfValue(caps.c);
    DecimalOfValue(caps.d);
    DecimalOfValue(caps.e.value);
    DecimalOfValue(caps.f.value);
    assert CapturesOf(id) == caps;
  }

  /** The text direction of the round trip: a text that parses, written
      without leading zeros and with group F, is given back by `Format`.
      (Any text that parses has such captures, with `Fits` holding.)
      Every text `Format` writes has that form (`CapturesOf`), and
      `LeadingZerosAccepted` shows a text without it that is not. */
  lemma TextRoundTrip(caps: Captures)
    requires WellFormed(caps) && Canonical(caps) && caps.f.Some? && Fits(caps)
    ensures Parse(Render(caps)).Some?
    ensures Format(Parse(Render(caps)).value) == Render(caps)
  {
    MatchRender(caps);
    var id := Values(caps).value;
    CanonicalFormat(caps, id);
  }

  // ---------------------------------------------------------------------
  // Examples

  lemma DecimalSnoc(s: string, ch: char)
    requires AllDigits(s) && IsDigit(ch)
    ensures DecimalValue(s + [ch]) == DecimalValue(s) * 10 + (ch as int - '0' as int)
  {
    assert (s + [ch])[..|s|] == s;
  }

  lemma SmallDecimals()
    ensures Decimal(0) == "0" && Decimal(1) == "1" && Decimal(7) == "7"
    ensures Decimal(21) == "21" && Decimal(96) == "96" && Decimal(255) == "255"
  {
    assert Decimal(2) == "2" && Decimal(9) == "9" && Decimal(25) == "25";
  }

  lemma RenderAllGroups()
    ensures Render(Captures(Some("1"), Some("0"), "96", "7", Some("21"), Some("255"))) == "1-0:96.7.21.255"
  {
    assert Render(Captures(Some("1"), Some("0"), "96", "7", Some("21"), Some("255"))) == "1-" + "0:" + "96" + "." + "7" + ".21" + ".255";
  }

  lemma RenderWithoutA()
    ensures Render(Captures(None, Some("0"), "96", "7", Some("21"), Some("255"))) == "0:96.7.21.255"
  {
    assert Render(Captures(None, Some("0"), "96", "7", Some("21"), Some("255"))) == [] + "0:" + "96" + "." + "7" + ".21" + ".255";
  }

  lemma RenderWithoutB()
    ensures Render(Captures(Some("1"), None, "96", "7", Some("21"), Some("255"))) == "1-96.7.21.255"
  {
    assert Render(Captures(Some("1"), None, "96", "7", Some("21"), Some("255"))) == "1-" + [] + "96" + "." + "7" + ".21" + ".255";
  }

  lemma RenderWithoutAB()
    ensures Render(Captures(None, None, "96", "7", Some("21"), Some("255"))) == "96.7.21.255"
  {
    assert Render(Captures(None, None, "96", "7", Some("21"), Some("255"))) == [] + [] + "96" + "." + "7" + ".21" + ".255";
  }

  lemma RenderWithoutF()
    ensures Render(Captures(Some("1"), Some("0"), "96", "7", Some("21"), None)) == "1-0:96.7.21"
  {
    assert Render(Captures(Some("1"), Some("0"), "96", "7", Some("21"), None)) == "1-" + "0:" + "96" + "." + "7" + ".21" + [];
  }

  lemma RenderLeadingZero()
    ensures Render(Captures(None, None, "096", "7", Some("21"), None)) == "096.7.21"
  {
    assert Render(Captures(None, None, "096", "7", Some("21"), None)) == [] + [] + "096" + "." + "7" + ".21" + [];
  }

  lemma RenderOverflow()
    ensures Render(Captures(None, None, "256", "7", Some("21"), None)) == "256.7.21"
  {
    assert Render(Captures(None, None, "256", "7", Some("21"), None)) == [] + [] + "256" + "." + "7" + ".21" + [];
  }

  lemma RenderMissingE()
    ensures Render(Captures(None, None, "96", "7", None, None)) == "96.7"
  {
    assert Render(Captures(None, None, "96", "7", None, None)) == [] + [] + "96" + "." + "7" + [] + [];
  }

  /** `Format` for captures given as such. */
  lemma FormatText(id: ObisIdentifier, caps: Captures, s: string)
    requires CapturesOf(id) == caps && Render(caps) == s
    ensures Format(id) == s
  {
  }

  /** `ParseComplete` for a text given as such. */
  lemma ParseText(s: string, caps: Captures, id: ObisIdentifier)
    requires WellFormed(caps) && Render(caps) == s && Denotes(caps, id)
    ensures Parse(s) == Some(id)
  {
    ParseComplete(caps, id);
  }

  /** Both parses of a text the pattern matches with the given captures. */
  lemma OutcomeText(s: string, caps: Captures)
    requires WellFormed(caps) && Render(caps) == s
    ensures ParseAsWritten(s) == Build(caps)
    ensures Parse(s) == Values(caps)
  {
    MatchRender(caps);
  }

  /** `it_should_convert_to_string_id_with_all_value_groups`. */
  lemma FormatAllGroups()
    ensures Format(ObisIdentifier(Some(1), Some(0), 96, 7, 21, 255)) == "1-0:96.7.21.255"
  {
    assert CapturesOf(ObisIdentifier(Some(1), Some(0), 96, 7, 21, 255)) == Captures(Some("1"), Some("0"), "96", "7", Some("21"), Some("255")) by { SmallDecimals(); }
    RenderAllGroups();
    FormatText(ObisIdentifier(Some(1), Some(0), 96, 7, 21, 255), Captures(Some("1"), Some("0"), "96", "7", Some("21"), Some("255")), "1-0:96.7.21.255");
  }

  /** `it_should_convert_to_string_id_without_value_group_a`. */
  lemma FormatWithoutA()
    ensures Format(ObisIdentifier(None, Some(0), 96, 7, 21, 255)) == "0:96.7.21.255"
  {
    assert CapturesOf(ObisIdentifier(None, Some(0), 96, 7, 21, 255)) == Captures(None, Some("0"), "96", "7", Some("21"), Some("255")) by { SmallDecimals(); }
    RenderWithoutA();
    FormatText(ObisIdentifier(None, Some(0), 96, 7, 21, 255), Captures(None, Some("0"), "96", "7", Some("21"), Some("255")), "0:96.7.21.255");
  }

  /** `it_should_convert_to_string_id_without_value_group_b`. */
  lemma FormatWithoutB()
    ensures Format(ObisIdentifier(Some(1), None, 96, 7, 21, 255)) == "1-96.7.21.255"
  {
    assert CapturesOf(ObisIdentifier(Some(1), None, 96, 7, 21, 255)) == Captures(Some("1"), None, "96", "7", Some("21"), Some("255")) by { SmallDecimals(); }
    RenderWithoutB();
    FormatText(ObisIdentifier(Some(1), None, 96, 7, 21, 255), Captures(Some("1"), None, "96", "7", Some("21"), Some("255")), "1-96.7.21.255");
  }

  /** `it_should_convert_to_string_id_without_value_groups_a_and_b`. */
  lemma FormatWithoutAB()
    ensures Format(ObisIdentifier(None, None, 96, 7, 21, 255)) == "96.7.21.255"
  {
    assert CapturesOf(ObisIdentifier(None, None, 96, 7, 21, 255)) == Captures(None, None, "96", "7", Some("21"), Some("255")) by { SmallDecimals(); }
    RenderWithoutAB();
    FormatText(ObisIdentifier(None, None, 96, 7, 21, 255), Captures(None, None, "96", "7", Some("21"), Some("255")), "96.7.21.255");
  }

  /** `it_should_parse_string_with_all_value_groups`. */
  lemma ParseAllGroups()
    ensures Parse("1-0:96.7.21.255") == Some(ObisIdentifier(Some(1), Some(0), 96, 7, 21, 255))
  {
    assert Denotes(Captures(Some("1"), Some("0"), "96", "7", Some("21"), Some("255")), ObisIdentifier(Some(1), Some(0), 96, 7, 21, 255)) by { SmallDecimals(); }
    RenderAllGroups();
    ParseText("1-0:96.7.21.255", Captures(Some("1"), Some("0"), "96", "7", Some("21"), Some("255")), ObisIdentifier(Some(1), Some(0), 96, 7, 21, 255));
  }

  /** `it_should_parse_string_without_value_group_a`. */
  lemma ParseWithoutA()
    ensures Parse("0:96.7.21.255") == Some(ObisIdentifier(None, Some(0), 96, 7, 21, 255))
  {
    assert Denotes(Captures(None, Some("0"), "96", "7", Some("21"), Some("255")), ObisIdentifier(None, Some(0), 96, 7, 21, 255)) by { SmallDecimals(); }
    RenderWithoutA();
    ParseText("0:96.7.21.255", Captures(None, Some("0"), "96", "7", Some("21"), Some("255")), ObisIdentifier(None, Some(0), 96, 7, 21, 255));
  }

  /** `it_should_parse_string_without_value_group_b`. */
  lemma ParseWithoutB()
    ensures Parse("1-96.7.21.255") == Some(ObisIdentifier(Some(1), None, 96, 7, 21, 255))
  {
    assert Denotes(Captures(Some("1"), None, "96", "7", Some("21"), Some("255")), ObisIdentifier(Some(1), None, 96, 7, 21, 255)) by { SmallDecimals(); }
    RenderWithoutB();
    ParseText("1-96.7.21.255", Captures(Some("1"), None, "96", "7", Some("21"), Some("255")), ObisIdentifier(Some(1), None, 96, 7, 21, 255));
  }

  /** `it_should_parse_string_without_value_groups_a_and_b`. */
  lemma ParseWithoutAB()
    ensures Parse("96.7.21.255") == Some(ObisIdentifier(None, None, 96, 7, 21, 255))
  {
    assert Denotes(Captures(None, None, "96", "7", Some("21"), Some("255")), ObisIdentifier(None, None, 96, 7, 21, 255)) by { SmallDecimals(); }
    RenderWithoutAB();
    ParseText("96.7.21.255", Captures(None, None, "96", "7", Some("21"), Some("255")), ObisIdentifier(None, None, 96, 7, 21, 255));
  }

  /** `it_should_parse_string_without_value_group_f`: group F defaults to 255. */
  lemma ParseWithoutF()
    ensures Parse("1-0:96.7.21") == Some(ObisIdentifier(Some(1), Some(0), 96, 7, 21, 255))
  {
    var caps := Captures(Some("1"), Some("0"), "96", "7", Some("21"), None);
    assert Denotes(caps, ObisIdentifier(Some(1), Some(0), 96, 7, 21, 255)) by { SmallDecimals(); }
    RenderWithoutF();
    ParseText("1-0:96.7.21", caps, ObisIdentifier(Some(1), Some(0), 96, 7, 21, 255));
  }

  /** Leading zeros are accepted and dropped, so `Format` does not give back
      every text `Parse` accepts. */
  lemma LeadingZerosAccepted()
    ensures Parse("096.7.21") == Some(ObisIdentifier(None, None, 96, 7, 21, 255))
    ensures Format(ObisIdentifier(None, None, 96, 7, 21, 255)) != "096.7.21"
  {
    FormatWithoutAB();
    assert "96.7.21.255"[0] != "096.7.21"[0];
    var caps := Captures(None, None, "096", "7", Some("21"), None);
    assert Denotes(caps, ObisIdentifier(None, None, 96, 7, 21, 255)) by {
      SmallDecimals();
      assert "096" == ['0'] + "96";
      LeadingZero("96");
    }
    RenderLeadingZero();
    ParseText("096.7.21", caps, ObisIdentifier(None, None, 96, 7, 21, 255));
  }

  /** A group above 255 matches the pattern, and the source panics on it. */
  lemma OverflowPanics()
    ensures ParseAsWritten("256.7.21") == Panicked(Overflow)
    ensures Parse("256.7.21") == None
  {
    var caps := Captures(None, None, "256", "7", Some("21"), None);
    assert DecimalValue("256") == 256 by {
      assert "256" == "25" + ['6'];
      DecimalSnoc("25", '6');
      assert DecimalValue("25") == 25;
    }
    RenderOverflow();
    OutcomeText("256.7.21", caps);
  }

  /** Group E is optional in the pattern but unwrapped unconditionally. */
  lemma MissingEPanics()
    ensures ParseAsWritten("96.7") == Panicked(MissingE)
    ensures Parse("96.7") == None
  {
    var caps := Captures(None, None, "96", "7", None, None);
    assert LeadFits(caps) by { SmallDecimals(); }
    RenderMissingE();
    OutcomeText("96.7", caps);
  }

  /** `Match` after its two optional groups. */
  lemma MatchAfterPrefix(s: string, a: Option<string>, s1: string, b: Option<string>, s2: string)
    requires OptionalGroup(s, '-') == (a, s1) && OptionalGroup(s1, ':') == (b, s2)
    ensures Match(s) == MatchValues(a, b, s2)
  {
  }

  /** Group C must be followed by a dot. */
  lemma NoDotAfterC(a: Option<string>, b: Option<string>, g: string, ch: char, t: string)
    requires IsGroup(g) && !IsDigit(ch) && ch != '.'
    ensures MatchValues(a, b, g + [ch] + t) == None
  {
    assert g + [ch] + t == g + ([ch] + t);
    DigitRunOf(g, [ch] + t);
  }

  /** Groups C and D, then whatever `MatchTail` makes of the rest. */
  lemma AfterC(a: Option<string>, b: Option<string>, c: string, t: string)
    requires IsGroup(c)
    ensures MatchValues(a, b, c + ['.'] + t).None? <==> MatchTail(t).None?
  {
    var s := c + ['.'] + t;
    assert s == c + (['.'] + t);
    DigitRunOf(c, ['.'] + t);
    assert s[|c| + 1..] == t;
  }

  /** A third dotted group after group D is left over, and the end anchor fails. */
  lemma ThirdDotAfterD(d: string, e: string, f: string, g: string)
    requires IsGroup(d) && IsGroup(e) && IsGroup(f) && IsGroup(g)
    ensures MatchTail(d + (['.'] + e + (['.'] + f + ['.'] + g))) == None
  {
    var t2 := ['.'] + f + (['.'] + g);
    var t1 := ['.'] + e + t2;
    assert ['.'] + f + ['.'] + g == t2;
    DotGroupTake(f, ['.'] + g);
    DotGroupTake(e, t2);
    DigitRunOf(d, t1);
    var t := d + t1;
    assert t[..|d|] == d && t[|d|..] == t1;
  }

  /** The pattern is anchored at the start: after group A no second `-`
      group is taken, so `1-2-96.7.21.255` does not match. */
  lemma SecondGroupARejected(a: string, a2: string, t: string)
    requires IsGroup(a) && IsGroup(a2)
    ensures Match(a + ['-'] + a2 + ['-'] + t) == None
  {
    var s1 := a2 + ['-'] + t;
    assert a + ['-'] + a2 + ['-'] + t == a + ['-'] + s1;
    OptionalGroupTake(a, '-', s1);
    OptionalGroupSkip(a2, '-', t, ':');
    NoDotAfterC(Some(a), None, a2, '-', t);
    MatchAfterPrefix(a + ['-'] + s1, Some(a), s1, None, s1);
  }

  /** The pattern is anchored at the end: at most two dotted groups follow
      group D, so `96.7.21.255.3` does not match. */
  lemma ExtraGroupRejected(c: string, d: string, e: string, f: string, g: string)
    requires IsGroup(c) && IsGroup(d) && IsGroup(e) && IsGroup(f) && IsGroup(g)
    ensures Match(c + ['.'] + d + ['.'] + e + ['.'] + f + ['.'] + g) == None
  {
    var t := d + (['.'] + e + (['.'] + f + ['.'] + g));
    var s := c + ['.'] + t;
    assert c + ['.'] + d + ['.'] + e + ['.'] + f + ['.'] + g == s;
    OptionalGroupSkip(c, '.', t, '-');
    OptionalGroupSkip(c, '.', t, ':');
    ThirdDotAfterD(d, e, f, g);
    AfterC(None, None, c, t);
    MatchAfterPrefix(s, None, s, None, s);
  }

  /** Groups C and D are required. */
  lemma ShortTextsRejected()
    ensures Match("") == None
    ensures Match("96") == None
  {
    DigitRunOf("96", []);
    assert "96" == "96" + [];
  }
}
