/** Parsing, rendering and bumping of product version strings. */
module ProductVersion {
  import opened Common
  import opened BumpLevels
  import opened ChangeClassifier

  datatype Core = Core(major: nat, minor: nat, patch: nat)

  datatype ParseError = WrongShape | NonInteger

  // ----- Strings -----

  /** Everything before the first `c`. */
  function Before(s: string, c: char): (r: string)
    ensures c !in r && r <= s
    ensures c in s ==> |r| < |s| && s[|r|] == c
    ensures c !in s ==> r == s
  {
    if s == [] || s[0] == c then [] else [s[0]] + Before(s[1..], c)
  }

  /** The pieces of `s` between occurrences of `c`; one more piece than occurrences. */
  function Split(s: string, c: char): (pieces: seq<string>)
    ensures |pieces| >= 1
    decreases |s|
  {
    var head := Before(s, c);
    if head == s then [s] else [head] + Split(s[|head| + 1..], c)
  }

  function DigitValue(c: char): (d: nat)
    requires IsDigit(c)
    ensures d <= 9
  {
    c as nat - '0' as nat
  }

  function DigitChar(d: nat): (c: char)
    requires d <= 9
    ensures IsDigit(c) && DigitValue(c) == d
  {
    '0' + d as char
  }

  predicate AllDigits(s: string) {
    forall c :: c in s ==> IsDigit(c)
  }

  /** The value of a run of decimal digits. */
  function DecimalValue(s: string): nat
    requires AllDigits(s)
  {
    if s == [] then 0 else 10 * DecimalValue(s[..|s| - 1]) + DigitValue(s[|s| - 1])
  }

  function ParseInt(s: string): Option<nat> {
    if s != [] && AllDigits(s) then Some(DecimalValue(s)) else None
  }

  function RenderInt(n: nat): (s: string)
    ensures s != [] && AllDigits(s) && DecimalValue(s) == n
  {
    if n < 10 then [DigitChar(n)] else
      var front := RenderInt(n / 10);
      var s := front + [DigitChar(n % 10)];
      assert s[..|s| - 1] == front;
      s
  }

  function ParseCore(version: string): Result<Core, ParseError> {
    var parts := Split(Before(version, '-'), '.');
    if |parts| != 3 then Err(WrongShape)
    else
      match (ParseInt(parts[0]), ParseInt(parts[1]), ParseInt(parts[2]))
      case (Some(major), Some(minor), Some(patch)) => Ok(Core(major, minor, patch))
      case _ => Err(NonInteger)
  }

  function Render(core: Core): string {
    RenderInt(core.major) + "." + RenderInt(core.minor) + "." + RenderInt(core.patch)
  }

  // ----- Bumping -----

  function Bump(version: string, next: Core -> Core): Result<string, ParseError> {
    match ParseCore(version)
    case Ok(core) => Ok(Render(next(core)))
    case Err(e) => Err(e)
  }

  function ApplyBump(current: string, level: BumpLevel): Result<string, ParseError> {
    match level
    case Major => Bump(current, (c: Core) => Core(c.major + 1, 0, 0))
    case Minor => Bump(current, (c: Core) => Core(c.major, c.minor + 1, 0))
    case Patch => Bump(current, (c: Core) => Core(c.major, c.minor, c.patch + 1))
    case NoBump => Ok(current)
  }

  /** Precedence of release cores: major, then minor, then patch. */
  predicate CoreLess(a: Core, b: Core) {
    || a.major < b.major
    || (a.major == b.major && a.minor < b.minor)
    || (a.major == b.major && a.minor == b.minor && a.patch < b.patch)
  }

  predicate CoreAtMost(a: Core, b: Core) {
    a == b || CoreLess(a, b)
  }

  predicate Parses(version: string) {
    ParseCore(version).Ok?
  }

  function CoreOf(version: string): Core
    requires Parses(version)
  {
    ParseCore(version).value
  }

  // ----- Round trip -----

  lemma {:induction false} BeforeAppend(s: string, c: char, rest: string)
    requires c !in s
    ensures Before(s + [c] + rest, c) == s
  {
    if s == [] {
      assert s + [c] + rest == [c] + rest;
    } else {
      assert (s + [c] + rest)[1..] == s[1..] + [c] + rest;
      BeforeAppend(s[1..], c, rest);
    }
  }

  lemma SplitAppend(s: string, c: char, rest: string)
    requires c !in s
    ensures Split(s + [c] + rest, c) == [s] + Split(rest, c)
  {
    BeforeAppend(s, c, rest);
    assert s != s + [c] + rest by {
      assert |s| < |s + [c] + rest|;
    }
    assert (s + [c] + rest)[|s| + 1..] == rest;
  }

  /** Splitting at `c` and joining with `c` again is the identity: no text is lost. */
  function Join(pieces: seq<string>, c: char): string
    requires |pieces| >= 1
  {
    if |pieces| == 1 then pieces[0] else pieces[0] + [c] + Join(pieces[1..], c)
  }

  lemma JoinFirst(piece: string, pieces: seq<string>, c: char)
    requires |pieces| >= 1
    ensures Join([piece] + pieces, c) == piece + [c] + Join(pieces, c)
  {
  }

  lemma {:induction false} SplitFirst(s: string, c: char)
    ensures var head := Before(s, c);
      if head == s then Split(s, c) == [s] && Join([s], c) == s
      else s == head + [c] + s[|head| + 1..] && Split(s, c) == [head] + Split(s[|head| + 1..], c)
  {
    var head := Before(s, c);
    hide Before;
    if head != s {
      assert c in s && s[|head|] == c;
    }
  }

  lemma {:induction false} SplitLosesNothing(s: string, c: char)
    ensures Join(Split(s, c), c) == s
    ensures forall piece :: piece in Split(s, c) ==> c !in piece
    decreases |s|
  {
    SplitFirst(s, c);
    var head := Before(s, c);
    if head != s {
      hide Split, Join, Before;
      var tail := s[|head| + 1..];
      SplitLosesNothing(tail, c);
      JoinFirst(head, Split(tail, c), c);
    }
  }

  lemma SplitThree(x: string, y: string, z: string, c: char)
    requires c !in x && c !in y && c !in z
    ensures Split(x + [c] + y + [c] + z, c) == [x, y, z]
  {
    SplitFirst(z, c);
    assert Before(z, c) == z;
    hide Split, Join, Before;
    assert x + [c] + y + [c] + z == x + [c] + (y + [c] + z);
    SplitAppend(x, c, y + [c] + z);
    SplitAppend(y, c, z);
  }

  lemma RenderParses(core: Core)
    ensures ParseCore(Render(core)) == Ok(core)
  {
    hide DecimalValue, Split;
    var (x, y, z) := (RenderInt(core.major), RenderInt(core.minor), RenderInt(core.patch));
    assert forall c :: c in x || c in y || c in z ==> IsDigit(c);
    assert '-' !in Render(core);
    SplitThree(x, y, z, '.');
    assert ['.'] == ".";
  }

  // ----- What the text means, digit by digit -----

  function Pow10(n: nat): nat {
    if n == 0 then 1 else 10 * Pow10(n - 1)
  }

  /** The sum of each digit times the power of ten of its position. */
  function Positional(s: string): nat
    requires AllDigits(s)
  {
    if s == [] then 0 else DigitValue(s[0]) * Pow10(|s| - 1) + Positional(s[1..])
  }

  lemma DigitsAreDecimal(d: nat)
    requires d < 10
    ensures IsDigit("0123456789"[d]) && DigitValue("0123456789"[d]) == d
  {
  }

  lemma {:induction false} TenTimes(d: nat, n: nat, v: nat)
    ensures 10 * (d * Pow10(n) + v) == d * Pow10(n + 1) + 10 * v
  {
    var p := Pow10(n);
    assert 10 * (d * p) == d * (10 * p);
    assert d * Pow10(n + 1) == d * (10 * p);
  }

  lemma {:induction false} LeadingDigit(s: string)
    requires AllDigits(s) && s != []
    ensures DecimalValue(s) == DigitValue(s[0]) * Pow10(|s| - 1) + DecimalValue(s[1..])
    decreases |s|
  {
    if |s| > 1 {
      var front, tail := s[..|s| - 1], s[1..];
      LeadingDigit(front);
      assert front[1..] == tail[..|tail| - 1] && tail[|tail| - 1] == s[|s| - 1];
      hide Pow10;
      TenTimes(DigitValue(s[0]), |s| - 2, DecimalValue(front[1..]));
    }
  }

  lemma {:induction false} DecimalIsPositional(s: string)
    requires AllDigits(s)
    ensures DecimalValue(s) == Positional(s)
  {
    if s != [] {
      LeadingDigit(s);
      DecimalIsPositional(s[1..]);
    }
  }

  /** The decimal numeral of `n`, without leading zeros. */
  predicate IsNumeral(s: string, n: nat) {
    s != [] && AllDigits(s) && Positional(s) == n && (|s| > 1 ==> s[0] != '0')
  }

  lemma {:induction false} RenderIsNumeral(n: nat)
    ensures IsNumeral(RenderInt(n), n)
  {
    DecimalIsPositional(RenderInt(n));
    NoLeadingZero(n);
  }

  lemma {:induction false} NoLeadingZero(n: nat)
    ensures n > 0 ==> RenderInt(n)[0] != '0'
    ensures |RenderInt(n)| > 1 ==> RenderInt(n)[0] != '0'
  {
    if n >= 10 {
      NoLeadingZero(n / 10);
    }
  }

  lemma {:induction false} LastDigit(s: string)
    requires AllDigits(s) && s != []
    ensures DecimalValue(s) / 10 == DecimalValue(s[..|s| - 1])
    ensures DigitChar(DecimalValue(s) % 10) == s[|s| - 1]
  {
    SplitTen(DecimalValue(s[..|s| - 1]), DigitValue(s[|s| - 1]));
  }

  lemma SplitTen(q: nat, d: nat)
    requires d < 10
    ensures (10 * q + d) / 10 == q && (10 * q + d) % 10 == d
  {
  }

  /** A numeral is worth at least ten as soon as it has two digits. */
  lemma {:induction false} LongNumeral(s: string)
    requires AllDigits(s) && |s| > 0 && s[0] != '0'
    ensures DecimalValue(s) >= 1 && (|s| > 1 ==> DecimalValue(s) >= 10)
    decreases |s|
  {
    if |s| > 1 {
      LongNumeral(s[..|s| - 1]);
    }
  }

  /** There is only one numeral of each number. */
  lemma {:induction false} NumeralIsUnique(s: string, n: nat)
    requires s != [] && AllDigits(s) && DecimalValue(s) == n && (|s| > 1 ==> s[0] != '0')
    ensures s == RenderInt(n)
    decreases |s|
  {
    LastDigit(s);
    var front := s[..|s| - 1];
    assert s == front + [s[|s| - 1]];
    if |s| > 1 {
      LongNumeral(s);
      NumeralIsUnique(front, n / 10);
    } else {
      assert front == [];
    }
  }

  lemma NumeralIsRendered(s: string, n: nat)
    requires IsNumeral(s, n)
    ensures s == RenderInt(n)
  {
    DecimalIsPositional(s);
    NumeralIsUnique(s, n);
  }

  /** Three digit strings separated by dots, and perhaps a suffix after a dash. */
  ghost predicate IsVersionText(version: string, x: string, y: string, z: string, suffix: string) {
    && version == x + "." + y + "." + z + suffix
    && x != [] && AllDigits(x) && y != [] && AllDigits(y) && z != [] && AllDigits(z)
    && (suffix == [] || suffix[0] == '-')
  }

  lemma {:induction false} CutSuffix(core: string, suffix: string)
    requires '-' !in core && (suffix == [] || suffix[0] == '-')
    ensures Before(core + suffix, '-') == core
  {
    hide Before;
    if suffix == [] {
      assert core + suffix == core;
    } else {
      BeforeAppend(core, '-', suffix[1..]);
      assert core + ['-'] + suffix[1..] == core + suffix;
    }
  }

  /** The text of a version is read part by part: major, then minor, then patch. */
  lemma TextIsParsed(version: string, x: string, y: string, z: string, suffix: string)
    requires IsVersionText(version, x, y, z, suffix)
    ensures ParseCore(version) == Ok(Core(Positional(x), Positional(y), Positional(z)))
    ensures Parses(version)
  {
    hide DecimalValue, Positional, Split;
    CutSuffix(x + "." + y + "." + z, suffix);
    SplitThree(x, y, z, '.');
    assert ['.'] == ".";
    DecimalIsPositional(x);
    DecimalIsPositional(y);
    DecimalIsPositional(z);
  }

  /** A version parses iff it has that shape. */
  lemma ParsesIff(version: string)
    ensures Parses(version) <==> exists x, y, z, suffix :: IsVersionText(version, x, y, z, suffix)
  {
    hide IsVersionText, Parses;
    if exists x, y, z, suffix :: IsVersionText(version, x, y, z, suffix) {
      var x, y, z, suffix :| IsVersionText(version, x, y, z, suffix);
      TextIsParsed(version, x, y, z, suffix);
    }
    if Parses(version) {
      ParsedHasShape(version);
    }
  }

  lemma ParsedHasShape(version: string)
    requires Parses(version)
    ensures exists x, y, z, suffix :: IsVersionText(version, x, y, z, suffix)
  {
    hide Split, Before, Join, DecimalValue;
    var core := Before(version, '-');
    var parts := Split(core, '.');
    SplitLosesNothing(core, '.');
    JoinThree(parts, '.');
    assert ['.'] == ".";
    assert core == parts[0] + "." + parts[1] + "." + parts[2];
    assert version == core + version[|core|..];
    assert IsVersionText(version, parts[0], parts[1], parts[2], version[|core|..]);
  }

  lemma JoinThree(parts: seq<string>, c: char)
    requires |parts| == 3
    ensures Join(parts, c) == parts[0] + [c] + parts[1] + [c] + parts[2]
  {
    assert parts[1..][1..] == [parts[2]];
    assert Join(parts[1..], c) == parts[1] + [c] + parts[2];
  }

  /**
   * A bump of a version text, numeral by numeral (items 6, 7 and 8 of Semantic Versioning 2.0.0): the
   * part it names is incremented, those right of it become zero, and any suffix is dropped.
   */
  lemma BumpedText(version: string, x: string, y: string, z: string, suffix: string,
                   x': string, y': string, z': string, level: BumpLevel)
    requires IsVersionText(version, x, y, z, suffix)
    requires IsNumeral(x', Positional(x) + if level == Major then 1 else 0)
    requires IsNumeral(y', Positional(y) + if level == Minor then 1 else 0)
    requires IsNumeral(z', Positional(z) + if level == Patch then 1 else 0)
    ensures ApplyBump(version, level) == Ok(
      match level
      case Major => x' + ".0.0"
      case Minor => x' + "." + y' + ".0"
      case Patch => x' + "." + y' + "." + z'
      case NoBump => version)
  {
    hide IsNumeral, Positional, ParseCore;
    TextIsParsed(version, x, y, z, suffix);
    NumeralIsRendered(x', Positional(x) + if level == Major then 1 else 0);
    NumeralIsRendered(y', Positional(y) + if level == Minor then 1 else 0);
    NumeralIsRendered(z', Positional(z) + if level == Patch then 1 else 0);
    ZeroNumeral();
    assert x' + "." + "0" + "." + "0" == x' + ".0.0";
    assert x' + "." + y' + "." + "0" == x' + "." + y' + ".0";
  }

  lemma ZeroNumeral()
    ensures RenderInt(0) == "0"
  {
  }

  /** What a bump does to any parseable version: item 6, 7 or 8 of Semantic Versioning 2.0.0. */
  lemma BumpSemantics(current: string, level: BumpLevel)
    ensures ApplyBump(current, level).Ok? <==> Parses(current) || level == NoBump
    ensures Parses(current) ==>
      var core := CoreOf(current);
      && Parses(ApplyBump(current, level).value)
      && CoreOf(ApplyBump(current, level).value) ==
        match level
        case Major => Core(core.major + 1, 0, 0)
        case Minor => Core(core.major, core.minor + 1, 0)
        case Patch => Core(core.major, core.minor, core.patch + 1)
        case NoBump => core
  {
    hide ParseCore, Render;
    if Parses(current) {
      var core := CoreOf(current);
      RenderParses(Core(core.major + 1, 0, 0));
      RenderParses(Core(core.major, core.minor + 1, 0));
      RenderParses(Core(core.major, core.minor, core.patch + 1));
    }
  }

  /** Versions never move down, and move strictly up exactly when something changed. */
  lemma BumpIsMonotone(current: string, level: BumpLevel)
    requires Parses(current)
    ensures var next := ApplyBump(current, level);
      && next.Ok? && Parses(next.value)
      && CoreAtMost(CoreOf(current), CoreOf(next.value))
      && (CoreLess(CoreOf(current), CoreOf(next.value)) <==> level != NoBump)
  {
    BumpSemantics(current, level);
  }

  function AsNumber(core: Core): VersionNumber {
    VersionNumber(core.major, core.minor, core.patch, None)
  }

  /** Bumping and then classifying gives back the level that was applied. */
  lemma ClassifyInvertsBump(current: string, level: BumpLevel)
    requires Parses(current)
    ensures var next := ApplyBump(current, level);
      && next.Ok? && Parses(next.value)
      && Distance(AsNumber(CoreOf(current)), AsNumber(CoreOf(next.value))) == level
  {
    BumpSemantics(current, level);
  }

  /** A prerelease suffix never matters to a bump. */
  lemma PrereleaseIsDropped(core: string, suffix: string)
    requires '-' !in core
    ensures ParseCore(core + "-" + suffix) == ParseCore(core)
  {
    BeforeAppend(core, '-', suffix);
    assert core + "-" + suffix == core + ['-'] + suffix;
  }
}
