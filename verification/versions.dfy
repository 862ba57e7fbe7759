/** Version strings of catalog records: the normaliser `stripVersionPrefix` and the comparator
    `versionCompare` of src/main/installMod.js. The comparator is given twice: `Compare` is the
    specification (a function), `VersionCompare` the loop-based algorithm of the source, proved
    to agree with it. */
module Versions {
  import opened Wrappers
  import opened Text

  /** The four answers of `versionCompare`: -1, 0, 1 and NaN. */
  datatype Cmp = Less | Equal | Greater | Incomparable

  /** The `options` argument; an absent option is false. */
  datatype CompareOptions = CompareOptions(lexicographical: bool, zeroExtend: bool)

  /** `versionCompare(a, b)` called without options. */
  const NoOptions := CompareOptions(false, false)

  function Flip(c: Cmp): Cmp {
    match c
    case Less => Greater
    case Greater => Less
    case Equal => Equal
    case Incomparable => Incomparable
  }

  /** The comparison is `<= 0`. */
  predicate AtMost(c: Cmp) { c == Less || c == Equal }

  // ---------------------------------------------------------------------------------------
  // Normalisation (stripVersionPrefix)
  // ---------------------------------------------------------------------------------------

  /** Scans for the colon that ends a lazy `.+?:` match begun before index `k`: the match
      length, or None when a line terminator or the end comes first. */
  function ColonFrom(s: string, k: nat): (r: Option<nat>)
    decreases |s| - k
    ensures r.Some? ==> k < r.value <= |s| && s[r.value - 1] == ':'
  {
    if k >= |s| then None
    else if s[k] == ':' then Some(k + 1)
    else if IsLineTerminator(s[k]) then None
    else ColonFrom(s, k + 1)
  }

  /** The length of the match of `(.+?):` at the start of `s`, if there is one. */
  function EpochMatch(s: string): (r: Option<nat>)
    ensures r.Some? ==> 2 <= r.value <= |s|
  {
    if s == [] || IsLineTerminator(s[0]) then None else ColonFrom(s, 1)
  }

  /** `s.replace(/(.+?):/g, '')`: every left-to-right lazy match up to a colon is deleted. */
  function StripEpochs(s: string): string
    decreases |s|
  {
    if s == [] then []
    else
      match EpochMatch(s)
      case Some(n) => StripEpochs(s[n..])
      case None => [s[0]] + StripEpochs(s[1..])
  }

  /** `s.replace(/v/gi, '')`. */
  function RemoveV(s: string): (r: string)
    ensures 'v' !in r && 'V' !in r
    ensures forall c | c in r :: c in s
    ensures forall c | c in s && c != 'v' && c != 'V' :: c in r
    ensures |r| <= |s|
  {
    if s == [] then []
    else (if s[0] == 'v' || s[0] == 'V' then [] else [s[0]]) + RemoveV(s[1..])
  }

  /** The index of the first `c` in `s`, or -1. */
  function FirstIndexOfChar(s: string, c: char): (i: int)
    ensures -1 <= i < |s|
    ensures i == -1 <==> c !in s
    ensures i >= 0 ==> s[i] == c && c !in s[..i]
  {
    if s == [] then -1
    else if s[0] == c then 0
    else
      var k := FirstIndexOfChar(s[1..], c);
      assert s[1..][..k + 1] == s[1..k + 2] by { if k >= 0 { } }
      if k == -1 then -1 else k + 1
  }

  /** `s.replace('-', '.')`: a string pattern, so only the first hyphen is replaced. */
  function FirstHyphenToDot(s: string): (r: string)
    ensures |r| == |s|
    ensures forall j | 0 <= j < |s| :: r[j] == (if j == FirstIndexOfChar(s, '-') then '.' else s[j])
  {
    var i := FirstIndexOfChar(s, '-');
    if i == -1 then s else s[..i] + "." + s[i + 1..]
  }

  /** The length of the longest suffix of `s` without a decimal digit: the text that
      `/(\D+)$/` captures. */
  function TrailingNonDigits(s: string): (k: nat)
    ensures k <= |s|
    ensures forall i | |s| - k <= i < |s| :: !IsDigit(s[i])
    ensures k < |s| ==> IsDigit(s[|s| - k - 1])
  {
    if s == [] || IsDigit(s[|s| - 1]) then 0 else TrailingNonDigits(s[..|s| - 1]) + 1
  }

  /** `char.charCodeAt(0) - 97` for every character, printed as numbers. */
  function CharCodes(t: string): (r: seq<string>)
    ensures |r| == |t|
    ensures forall i | 0 <= i < |t| :: r[i] == IntToString(t[i] as int - 97)
  {
    seq(|t|, i requires 0 <= i < |t| => IntToString(t[i] as int - 97))
  }

  /** A trailing run of non-digits becomes further dotted parts, one per character. */
  function ExpandLetterSuffix(s: string): string {
    var k := TrailingNonDigits(s);
    if k == 0 then s else s[..|s| - k] + "." + Join(CharCodes(s[|s| - k..]), '.')
  }

  /** `stripVersionPrefix(version)`. */
  function Normalize(version: string): string {
    ExpandLetterSuffix(FirstHyphenToDot(RemoveV(StripEpochs(version))))
  }

  /** `stripVersionPrefix(version).split('.')`. */
  function Parts(version: string): seq<string> {
    Split(Normalize(version), '.')
  }

  // ---------------------------------------------------------------------------------------
  // Part validation and comparison keys
  // ---------------------------------------------------------------------------------------

  /** `/^\d+$/`. */
  predicate DigitPart(p: string) { |p| >= 1 && AllDigits(p) }

  function LeadingDigits(p: string): (k: nat)
    ensures k <= |p| && AllDigits(p[..k])
    ensures k < |p| ==> !IsDigit(p[k])
  {
    if p == [] || !IsDigit(p[0]) then 0
    else
      var k := LeadingDigits(p[1..]);
      assert p[..k + 1] == [p[0]] + p[1..][..k];
      k + 1
  }

  /** `/^\d+[A-Za-z]*$/`. */
  predicate LexPart(p: string) {
    var k := LeadingDigits(p);
    k >= 1 && forall i | k <= i < |p| :: IsAsciiLetter(p[i])
  }

  /** `isValidPart`. */
  predicate ValidPart(p: string, lexicographical: bool) {
    if lexicographical then LexPart(p) else DigitPart(p)
  }

  predicate AllValid(parts: seq<string>, lexicographical: bool) {
    forall i | 0 <= i < |parts| :: ValidPart(parts[i], lexicographical)
  }

  /** A part as the loop compares it: a number after `map(Number)`, or the string itself in
      lexicographical mode. */
  datatype Key = NumKey(n: nat) | StrKey(s: string)

  function ToKey(p: string, lexicographical: bool): (k: Key)
    requires ValidPart(p, lexicographical)
    ensures k.StrKey? == lexicographical
    ensures lexicographical ==> k == StrKey(p)
    ensures !lexicographical ==> k == NumKey(DecimalValue(p))
  {
    if lexicographical then StrKey(p) else NumKey(DecimalValue(p))
  }

  function ToKeys(parts: seq<string>, lexicographical: bool): (ks: seq<Key>)
    requires AllValid(parts, lexicographical)
    ensures |ks| == |parts|
    ensures forall i | 0 <= i < |parts| :: ks[i] == ToKey(parts[i], lexicographical)
  {
    seq(|parts|, i requires 0 <= i < |parts| => ToKey(parts[i], lexicographical))
  }

  /** All keys come from the same mode, as they do within one call. */
  predicate KeysOfKind(ks: seq<Key>, lexicographical: bool) {
    forall i | 0 <= i < |ks| :: ks[i].StrKey? == lexicographical
  }

  /** JavaScript's `>` between two numbers or two strings. */
  predicate KeyGreater(x: Key, y: Key) {
    match (x, y)
    case (NumKey(a), NumKey(b)) => a > b
    case (StrKey(a), StrKey(b)) => StrLess(b, a)
    case _ => false
  }

  /** The comparison loop: the first differing key decides; a proper prefix is smaller. */
  function CompareKeys(a: seq<Key>, b: seq<Key>): (r: Cmp)
    ensures r != Incomparable
  {
    if a == [] then (if b == [] then Equal else Less)
    else if b == [] then Greater
    else if a[0] == b[0] then CompareKeys(a[1..], b[1..])
    else if KeyGreater(a[0], b[0]) then Greater
    else Less
  }

  /** `k` copies of the padding part "0". */
  function Zeros(k: nat): (z: seq<string>)
    ensures |z| == k && forall i | 0 <= i < k :: z[i] == "0"
  {
    if k == 0 then [] else Zeros(k - 1) + ["0"]
  }

  /** The parts after the `push("0")` loops that pad them to length `n`. */
  function ZeroExtend(parts: seq<string>, n: nat): seq<string> {
    if |parts| >= n then parts else parts + Zeros(n - |parts|)
  }

  /** A version argument that is neither missing nor the empty string (JavaScript truthiness). */
  predicate Present(v: Option<string>) { v.Some? && v.value != "" }

  /** `versionCompare(v1, v2, options)`, as a specification. */
  function Compare(v1: Option<string>, v2: Option<string>, options: CompareOptions): (r: Cmp)
    ensures !Present(v1) || !Present(v2) ==> r == Equal
    ensures r == Incomparable <==>
      Present(v1) && Present(v2) &&
      (!AllValid(Parts(v1.value), options.lexicographical) || !AllValid(Parts(v2.value), options.lexicographical))
  {
    if !Present(v1) || !Present(v2) then Equal
    else CompareParts(Parts(v1.value), Parts(v2.value), options)
  }

  /** The comparison once both versions are split into parts: NaN unless every part is valid,
      otherwise the keys of the (optionally zero-extended) parts in order. */
  function CompareParts(p1: seq<string>, p2: seq<string>, options: CompareOptions): (r: Cmp)
    ensures r == Incomparable <==> !AllValid(p1, options.lexicographical) || !AllValid(p2, options.lexicographical)
  {
    var lex := options.lexicographical;
    if !AllValid(p1, lex) || !AllValid(p2, lex) then Incomparable
    else
      var n := if |p1| < |p2| then |p2| else |p1|;
      ZeroExtendValid(p1, n, lex);
      ZeroExtendValid(p2, n, lex);
      var e1 := if options.zeroExtend then ZeroExtend(p1, n) else p1;
      var e2 := if options.zeroExtend then ZeroExtend(p2, n) else p2;
      CompareKeys(ToKeys(e1, lex), ToKeys(e2, lex))
  }

  lemma ZeroExtendValid(parts: seq<string>, n: nat, lexicographical: bool)
    requires AllValid(parts, lexicographical)
    ensures AllValid(ZeroExtend(parts, n), lexicographical)
    ensures |ZeroExtend(parts, n)| == if |parts| < n then n else |parts|
  {
    assert LeadingDigits("0") == 1;
  }

  lemma ZeroExtendSameLength(parts: seq<string>)
    ensures ZeroExtend(parts, |parts|) == parts
  {
  }

  // ---------------------------------------------------------------------------------------
  // The algorithm of the source
  // ---------------------------------------------------------------------------------------

  /** The two `while (…) push("0")` loops of `versionCompare`: both part lists end at the
      length of the longer one. */
  method PadWithZeros(p1: seq<string>, p2: seq<string>) returns (e1: seq<string>, e2: seq<string>)
    ensures var n := if |p1| < |p2| then |p2| else |p1|;
      e1 == ZeroExtend(p1, n) && e2 == ZeroExtend(p2, n)
  {
    ghost var n := if |p1| < |p2| then |p2| else |p1|;
    e1, e2 := p1, p2;
    while |e1| < |e2|
      invariant |p1| <= |e1| <= n && e2 == p2
      invariant e1 == p1 + Zeros(|e1| - |p1|)
    {
      e1 := e1 + ["0"];
    }
    while |e2| < |e1|
      invariant |p2| <= |e2| <= n && |e1| == n
      invariant e1 == ZeroExtend(p1, n)
      invariant e2 == p2 + Zeros(|e2| - |p2|)
    {
      e2 := e2 + ["0"];
    }
  }

  /** The `for` loop of `versionCompare`: the first differing key decides, with an early
      return; a list that runs out first is the smaller. */
  method ScanKeys(k1: seq<Key>, k2: seq<Key>) returns (r: Cmp)
    ensures r == CompareKeys(k1, k2)
  {
    for i := 0 to |k1|
      invariant i <= |k2|
      invariant CompareKeys(k1[i..], k2[i..]) == CompareKeys(k1, k2)
    {
      if |k2| == i {
        return Greater;
      }
      if k1[i] == k2[i] {
        assert k1[i..][1..] == k1[i + 1..] && k2[i..][1..] == k2[i + 1..];
        continue;
      } else if KeyGreater(k1[i], k2[i]) {
        return Greater;
      } else {
        return Less;
      }
    }
    if |k1| != |k2| {
      return Less;
    }
    return Equal;
  }

  /** `versionCompare`: missing arguments compare equal, an invalid part makes the answer
      NaN, otherwise the (optionally padded) parts are scanned. */
  method VersionCompare(v1: Option<string>, v2: Option<string>, options: CompareOptions) returns (r: Cmp)
    ensures r == Compare(v1, v2, options)
  {
    if !Present(v1) || !Present(v2) {
      return Equal;
    }
    r := ComparePartLists(Parts(v1.value), Parts(v2.value), options);
  }

  /** `versionCompare` after splitting: validate, pad when asked, then scan. */
  method ComparePartLists(v1parts: seq<string>, v2parts: seq<string>, options: CompareOptions) returns (r: Cmp)
    ensures r == CompareParts(v1parts, v2parts, options)
  {
    var lex := options.lexicographical;
    if !AllValid(v1parts, lex) || !AllValid(v2parts, lex) {
      return Incomparable;
    }
    ghost var n := if |v1parts| < |v2parts| then |v2parts| else |v1parts|;
    ZeroExtendValid(v1parts, n, lex);
    ZeroExtendValid(v2parts, n, lex);
    var e1, e2 := v1parts, v2parts;
    if options.zeroExtend {
      e1, e2 := PadWithZeros(v1parts, v2parts);
    }
    r := ScanKeys(ToKeys(e1, lex), ToKeys(e2, lex));
  }

  // ---------------------------------------------------------------------------------------
  // The order on comparison keys
  // ---------------------------------------------------------------------------------------

  /** Within one mode `>` is a strict total order. */
  lemma KeyOrder(x: Key, y: Key, lexicographical: bool)
    requires x.StrKey? == lexicographical && y.StrKey? == lexicographical
    ensures !KeyGreater(x, x)
    ensures x != y ==> KeyGreater(x, y) != KeyGreater(y, x)
    ensures KeyGreater(x, y) ==> !KeyGreater(y, x)
  {
    if lexicographical {
      StrLessIrreflexive(x.s);
      if x != y {
        StrLessTotal(x.s, y.s);
      }
    }
  }

  lemma KeyGreaterTransitive(x: Key, y: Key, z: Key, lexicographical: bool)
    requires x.StrKey? == lexicographical && y.StrKey? == lexicographical && z.StrKey? == lexicographical
    requires KeyGreater(x, y) && KeyGreater(y, z)
    ensures KeyGreater(x, z)
  {
    if lexicographical {
      StrLessTransitive(z.s, y.s, x.s);
    }
  }

  lemma {:induction false} CompareKeysSelf(a: seq<Key>)
    ensures CompareKeys(a, a) == Equal
  {
    if a != [] {
      CompareKeysSelf(a[1..]);
    }
  }

  /** Swapping the arguments swaps Less and Greater. */
  lemma {:induction false} CompareKeysFlip(a: seq<Key>, b: seq<Key>, lexicographical: bool)
    requires KeysOfKind(a, lexicographical) && KeysOfKind(b, lexicographical)
    ensures CompareKeys(a, b) == Flip(CompareKeys(b, a))
  {
    if a != [] && b != [] {
      KeyOrder(a[0], b[0], lexicographical);
      if a[0] == b[0] {
        CompareKeysFlip(a[1..], b[1..], lexicographical);
      }
    }
  }

  /** The first position where the keys differ decides. */
  lemma {:induction false} CompareKeysFirstDifference(a: seq<Key>, b: seq<Key>, i: nat)
    requires i < |a| && i < |b| && a[..i] == b[..i] && a[i] != b[i]
    ensures CompareKeys(a, b) == if KeyGreater(a[i], b[i]) then Greater else Less
  {
    if i > 0 {
      assert a[0] == a[..i][0] == b[..i][0] == b[0];
      assert a[1..][..i - 1] == a[1..i] && b[1..][..i - 1] == b[1..i];
      CompareKeysFirstDifference(a[1..], b[1..], i - 1);
    }
  }

  /** A proper prefix is smaller. */
  lemma {:induction false} CompareKeysProperPrefix(a: seq<Key>, c: seq<Key>)
    requires |c| > 0
    ensures CompareKeys(a, a + c) == Less
  {
    if a != [] {
      assert (a + c)[1..] == a[1..] + c;
      CompareKeysProperPrefix(a[1..], c);
    }
  }

  /** A common prefix does not change the answer. */
  lemma {:induction false} CompareKeysCommonPrefix(k: seq<Key>, x: seq<Key>, y: seq<Key>)
    ensures CompareKeys(k + x, k + y) == CompareKeys(x, y)
  {
    if k != [] {
      assert (k + x)[0] == k[0] == (k + y)[0];
      assert (k + x)[1..] == k[1..] + x && (k + y)[1..] == k[1..] + y;
      CompareKeysCommonPrefix(k[1..], x, y);
    } else {
      assert k + x == x && k + y == y;
    }
  }

  /** `<=` is transitive, and strictly so when either step is strict. */
  lemma {:induction false} CompareKeysTransitive(a: seq<Key>, b: seq<Key>, c: seq<Key>, lexicographical: bool)
    requires KeysOfKind(a, lexicographical) && KeysOfKind(b, lexicographical) && KeysOfKind(c, lexicographical)
    requires AtMost(CompareKeys(a, b)) && AtMost(CompareKeys(b, c))
    ensures AtMost(CompareKeys(a, c))
    ensures CompareKeys(a, b) == Less || CompareKeys(b, c) == Less ==> CompareKeys(a, c) == Less
  {
    if a != [] && b != [] && c != [] {
      KeyOrder(a[0], b[0], lexicographical);
      KeyOrder(b[0], c[0], lexicographical);
      KeyOrder(a[0], c[0], lexicographical);
      if a[0] == b[0] && b[0] == c[0] {
        CompareKeysTransitive(a[1..], b[1..], c[1..], lexicographical);
      } else if a[0] != b[0] && b[0] != c[0] {
        KeyGreaterTransitive(c[0], b[0], a[0], lexicographical);
      }
    }
  }

  // ---------------------------------------------------------------------------------------
  // Laws of versionCompare
  // ---------------------------------------------------------------------------------------

  /** Swapping the two part lists swaps Less and Greater. */
  lemma ComparePartsSymmetric(p1: seq<string>, p2: seq<string>, options: CompareOptions)
    ensures CompareParts(p1, p2, options) == Flip(CompareParts(p2, p1, options))
  {
    var lex := options.lexicographical;
    if AllValid(p1, lex) && AllValid(p2, lex) {
      var n := if |p1| < |p2| then |p2| else |p1|;
      ZeroExtendValid(p1, n, lex);
      ZeroExtendValid(p2, n, lex);
      var e1 := if options.zeroExtend then ZeroExtend(p1, n) else p1;
      var e2 := if options.zeroExtend then ZeroExtend(p2, n) else p2;
      CompareKeysFlip(ToKeys(e1, lex), ToKeys(e2, lex), lex);
    }
  }

  /** Swapping the two versions swaps -1 and 1; 0 and NaN stay. */
  lemma CompareSymmetric(v1: Option<string>, v2: Option<string>, options: CompareOptions)
    ensures Compare(v1, v2, options) == Flip(Compare(v2, v1, options))
  {
    if Present(v1) && Present(v2) {
      ComparePartsSymmetric(Parts(v1.value), Parts(v2.value), options);
    }
  }

  lemma ComparePartsReflexive(p: seq<string>, options: CompareOptions)
    requires AllValid(p, options.lexicographical)
    ensures CompareParts(p, p, options) == Equal
  {
    ZeroExtendValid(p, |p|, options.lexicographical);
    CompareKeysSelf(ToKeys(p, options.lexicographical));
  }

  /** A version equals itself unless one of its parts is invalid. */
  lemma CompareReflexive(v: Option<string>, options: CompareOptions)
    ensures Compare(v, v, options) ==
      if Present(v) && !AllValid(Parts(v.value), options.lexicographical) then Incomparable else Equal
  {
    if Present(v) && AllValid(Parts(v.value), options.lexicographical) {
      ComparePartsReflexive(Parts(v.value), options);
    }
  }

  /** With valid parts and nothing to pad, the comparison is that of the keys. */
  lemma ComparePartsUnpadded(p1: seq<string>, p2: seq<string>, options: CompareOptions)
    requires AllValid(p1, options.lexicographical) && AllValid(p2, options.lexicographical)
    requires !options.zeroExtend || |p1| == |p2|
    ensures CompareParts(p1, p2, options) ==
      CompareKeys(ToKeys(p1, options.lexicographical), ToKeys(p2, options.lexicographical))
  {
    var n := if |p1| < |p2| then |p2| else |p1|;
    if options.zeroExtend {
      assert ZeroExtend(p1, n) == p1 && ZeroExtend(p2, n) == p2;
    }
  }

  lemma ComparePartsTransitive(p1: seq<string>, p2: seq<string>, p3: seq<string>, lexicographical: bool)
    requires AtMost(CompareParts(p1, p2, CompareOptions(lexicographical, false)))
    requires AtMost(CompareParts(p2, p3, CompareOptions(lexicographical, false)))
    ensures AtMost(CompareParts(p1, p3, CompareOptions(lexicographical, false)))
    ensures CompareParts(p1, p2, CompareOptions(lexicographical, false)) == Less ||
            CompareParts(p2, p3, CompareOptions(lexicographical, false)) == Less
            ==> CompareParts(p1, p3, CompareOptions(lexicographical, false)) == Less
  {
    var lex := lexicographical;
    ComparePartsUnpadded(p1, p2, CompareOptions(lex, false));
    ComparePartsUnpadded(p2, p3, CompareOptions(lex, false));
    ComparePartsUnpadded(p1, p3, CompareOptions(lex, false));
    CompareKeysTransitive(ToKeys(p1, lex), ToKeys(p2, lex), ToKeys(p3, lex), lex);
  }

  /** Component-wise order: the first part whose value differs decides the answer, with or
      without zero extension (padding only appends beyond the shorter list). */
  lemma FirstDifferingPartDecides(p1: seq<string>, p2: seq<string>, i: nat, options: CompareOptions)
    requires AllValid(p1, options.lexicographical) && AllValid(p2, options.lexicographical)
    requires i < |p1| && i < |p2|
    requires forall j | 0 <= j < i :: ToKey(p1[j], options.lexicographical) == ToKey(p2[j], options.lexicographical)
    requires ToKey(p1[i], options.lexicographical) != ToKey(p2[i], options.lexicographical)
    ensures CompareParts(p1, p2, options) ==
      if KeyGreater(ToKey(p1[i], options.lexicographical), ToKey(p2[i], options.lexicographical)) then Greater else Less
  {
    var lex := options.lexicographical;
    var n := if |p1| < |p2| then |p2| else |p1|;
    ZeroExtendValid(p1, n, lex);
    ZeroExtendValid(p2, n, lex);
    var e1 := if options.zeroExtend then ZeroExtend(p1, n) else p1;
    var e2 := if options.zeroExtend then ZeroExtend(p2, n) else p2;
    assert forall j | 0 <= j <= i :: e1[j] == p1[j] && e2[j] == p2[j];
    var k1 := ToKeys(e1, lex);
    var k2 := ToKeys(e2, lex);
    assert k1[..i] == k2[..i];
    CompareKeysFirstDifference(k1, k2, i);
  }

  /** `Number` ignores leading zeros. */
  lemma {:induction false} LeadingZeroIgnored(p: string)
    requires AllDigits(p)
    ensures AllDigits("0" + p) && DecimalValue("0" + p) == DecimalValue(p)
  {
    if p != [] {
      var q := "0" + p;
      assert q[..|q| - 1] == "0" + p[..|p| - 1];
      LeadingZeroIgnored(p[..|p| - 1]);
    }
  }

  /** In numeric mode a part with extra leading zeros compares equal to the part without
      them ("1.007" against "1.7"). */
  lemma ZeroPrefixedPartEqual(base: seq<string>, x: string, zeroExtend: bool)
    requires AllValid(base, false) && DigitPart(x)
    ensures CompareParts(base + ["0" + x], base + [x], CompareOptions(false, zeroExtend)) == Equal
  {
    LeadingZeroIgnored(x);
    ComparePartsLast(base, "0" + x, x, zeroExtend);
  }

  /** Without zero extension, `<=` between present versions is transitive (strictly so when
      either step is strict); this is what keeping a running maximum relies on. */
  lemma CompareTransitive(v1: string, v2: string, v3: string, lexicographical: bool)
    requires v1 != "" && v2 != "" && v3 != ""
    requires AtMost(Compare(Some(v1), Some(v2), CompareOptions(lexicographical, false)))
    requires AtMost(Compare(Some(v2), Some(v3), CompareOptions(lexicographical, false)))
    ensures AtMost(Compare(Some(v1), Some(v3), CompareOptions(lexicographical, false)))
    ensures Compare(Some(v1), Some(v2), CompareOptions(lexicographical, false)) == Less ||
            Compare(Some(v2), Some(v3), CompareOptions(lexicographical, false)) == Less
            ==> Compare(Some(v1), Some(v3), CompareOptions(lexicographical, false)) == Less
  {
    ComparePartsTransitive(Parts(v1), Parts(v2), Parts(v3), lexicographical);
  }

  /** A version at most `h` is strictly below anything strictly above `h`. */
  lemma BelowThroughGreater(m: Option<string>, h: Option<string>, l: Option<string>)
    requires Present(m) && Present(h) && Present(l)
    requires AtMost(Compare(m, h, NoOptions)) && Compare(l, h, NoOptions) == Greater
    ensures Compare(m, l, NoOptions) == Less && Compare(l, m, NoOptions) == Greater
  {
    CompareSymmetric(l, h, NoOptions);
    CompareTransitive(m.value, h.value, l.value, false);
    CompareSymmetric(m, l, NoOptions);
  }

  /** Two versions with the same normal form compare alike against anything. */
  lemma CompareSameNormalForm(v1: string, v2: string, w: Option<string>, options: CompareOptions)
    requires v1 != "" && v2 != "" && Normalize(v1) == Normalize(v2)
    ensures Compare(Some(v1), w, options) == Compare(Some(v2), w, options)
  {
  }

  // ---------------------------------------------------------------------------------------
  // Laws of stripVersionPrefix
  // ---------------------------------------------------------------------------------------

  lemma {:induction false} ColonFromNone(s: string, k: nat)
    requires forall i | k <= i < |s| :: s[i] != ':'
    decreases |s| - k
    ensures ColonFrom(s, k) == None
  {
    if k < |s| && !IsLineTerminator(s[k]) {
      ColonFromNone(s, k + 1);
    }
  }

  lemma {:induction false} ColonFromFinds(s: string, k: nat, j: nat)
    requires k <= j < |s| && s[j] == ':'
    requires forall i | k <= i < j :: s[i] != ':' && !IsLineTerminator(s[i])
    decreases j - k
    ensures ColonFrom(s, k) == Some(j + 1)
  {
    if k < j {
      ColonFromFinds(s, k + 1, j);
    }
  }

  /** Without a colon there is nothing to strip. */
  lemma {:induction false} StripEpochsWithoutColon(s: string)
    requires ':' !in s
    ensures StripEpochs(s) == s
  {
    if s != [] {
      if !IsLineTerminator(s[0]) {
        ColonFromNone(s, 1);
      }
      assert ':' !in s[1..];
      StripEpochsWithoutColon(s[1..]);
      assert s == [s[0]] + s[1..];
    }
  }

  /** An epoch `e:` in front of a colon-free version is dropped. */
  lemma EpochDropped(e: string, t: string)
    requires |e| >= 1 && ':' !in e && ':' !in t
    requires forall i | 0 <= i < |e| :: !IsLineTerminator(e[i])
    ensures StripEpochs(e + [':'] + t) == t
  {
    var s := e + [':'] + t;
    ColonFromFinds(s, 1, |e|);
    assert s[|e| + 1..] == t;
    StripEpochsWithoutColon(t);
  }

  lemma {:induction false} RemoveVWithoutV(s: string)
    requires 'v' !in s && 'V' !in s
    ensures RemoveV(s) == s
  {
    if s != [] {
      assert s == [s[0]] + s[1..];
      RemoveVWithoutV(s[1..]);
    }
  }

  /** Removing `v`/`V` works piece by piece, so the other characters keep their order. */
  lemma {:induction false} RemoveVAppend(a: string, b: string)
    ensures RemoveV(a + b) == RemoveV(a) + RemoveV(b)
  {
    if a == [] {
      assert a + b == b;
    } else {
      assert (a + b)[0] == a[0] && (a + b)[1..] == a[1..] + b;
      RemoveVAppend(a[1..], b);
    }
  }

  /** A single character is dropped exactly when it is `v` or `V`. */
  lemma RemoveVChar(c: char)
    ensures RemoveV([c]) == if c == 'v' || c == 'V' then [] else [c]
  {
    assert [c][1..] == [];
  }

  /** For a version without an epoch, every `v`/`V` may be left out beforehand. */
  lemma NormalizeIgnoresV(s: string)
    requires ':' !in s
    ensures Normalize(s) == Normalize(RemoveV(s))
  {
    StripEpochsWithoutColon(s);
    StripEpochsWithoutColon(RemoveV(s));
    RemoveVWithoutV(RemoveV(s));
  }

  /** Only the first hyphen becomes a dot; any later one stays. */
  lemma OnlyFirstHyphenReplaced(s: string, i: nat, j: nat)
    requires i < j < |s| && s[i] == '-' && s[j] == '-'
    ensures FirstHyphenToDot(s)[j] == '-'
  {
    var f := FirstIndexOfChar(s, '-');
    assert s[..j][i] == '-';
  }

  /** A plain dotted version: every part is a non-empty run of digits. */
  predicate IsBaseVersion(s: string) {
    forall p | p in Split(s, '.') :: DigitPart(p)
  }

  lemma BaseVersionShape(s: string)
    requires IsBaseVersion(s)
    ensures |s| >= 1 && IsDigit(s[|s| - 1])
    ensures forall i | 0 <= i < |s| :: IsDigit(s[i]) || s[i] == '.'
  {
    var parts := Split(s, '.');
    SplitThenJoin(s, '.');
    assert parts[|parts| - 1] in parts;
    JoinEndsWithLastPart(parts, '.');
    forall i | 0 <= i < |s|
      ensures IsDigit(s[i]) || s[i] == '.'
    {
      JoinCharacters(parts, '.', s[i]);
      if s[i] != '.' {
        var p :| p in parts && s[i] in p;
        var k :| 0 <= k < |p| && p[k] == s[i];
      }
    }
  }

  lemma BaseVersionValid(s: string, lexicographical: bool)
    requires IsBaseVersion(s)
    ensures AllValid(Split(s, '.'), lexicographical)
  {
    var parts := Split(s, '.');
    forall i | 0 <= i < |parts|
      ensures ValidPart(parts[i], lexicographical)
    {
      assert parts[i] in parts;
      LeadingDigitsOfDigits(parts[i]);
    }
  }

  lemma {:induction false} LeadingDigitsOfDigits(p: string)
    requires AllDigits(p)
    ensures LeadingDigits(p) == |p|
  {
    if p != [] {
      LeadingDigitsOfDigits(p[1..]);
    }
  }

  /** A plain dotted version is its own normal form, and all of its parts are valid. */
  lemma NormalizeBaseVersion(s: string)
    requires IsBaseVersion(s)
    ensures Normalize(s) == s
    ensures Parts(s) == Split(s, '.')
    ensures AllValid(Parts(s), false) && AllValid(Parts(s), true)
  {
    BaseVersionShape(s);
    assert ':' !in s && 'v' !in s && 'V' !in s && '-' !in s by {
      forall i | 0 <= i < |s| ensures s[i] != ':' && s[i] != 'v' && s[i] != 'V' && s[i] != '-' {
      }
    }
    StripEpochsWithoutColon(s);
    RemoveVWithoutV(s);
    assert FirstHyphenToDot(s) == s;
    assert TrailingNonDigits(s) == 0;
    assert ExpandLetterSuffix(s) == s;
    BaseVersionValid(s, false);
    BaseVersionValid(s, true);
  }

  /** Appending ".0" to a plain version gives a plain version with one more part. */
  lemma BaseVersionWithZero(s: string)
    requires IsBaseVersion(s)
    ensures Split(s + ".0", '.') == Split(s, '.') + ["0"]
    ensures IsBaseVersion(s + ".0")
  {
    SplitAround(s, '.', "0");
    assert s + ".0" == s + ['.'] + "0";
    SplitWithoutSeparator("0", '.');
  }

  /** A single trailing non-digit after a plain version becomes one more part,
      its character code minus 97. */
  lemma LetterSuffixNormalized(s: string, c: char)
    requires IsBaseVersion(s)
    requires !IsDigit(c) && c != ':' && c != 'v' && c != 'V' && c != '-'
    ensures Normalize(s + [c]) == s + "." + IntToString(c as int - 97)
  {
    var t := s + [c];
    BaseVersionShape(s);
    assert ':' !in t && 'v' !in t && 'V' !in t && '-' !in t;
    StripEpochsWithoutColon(t);
    RemoveVWithoutV(t);
    assert t[..|t| - 1] == s;
    assert TrailingNonDigits(t) == 1;
    assert t[|t| - 1..] == [c];
    assert CharCodes([c]) == [IntToString(c as int - 97)];
  }

  /** The characters a trailing non-digit run may hold without being changed earlier by the
      normaliser. */
  predicate PlainSuffix(t: string) {
    forall i | 0 <= i < |t| :: !IsDigit(t[i]) && t[i] != ':' && t[i] != 'v' && t[i] != 'V' && t[i] != '-'
  }

  /** A trailing run of non-digits after a plain version becomes one part per character, each
      its character code minus 97 ("1.0rc" has the parts 1, 0, 17, 2). */
  lemma SuffixRunParts(s: string, t: string)
    requires IsBaseVersion(s) && |t| >= 1 && PlainSuffix(t)
    ensures Parts(s + t) == Split(s, '.') + CharCodes(t)
  {
    SuffixRunNormalized(s, t);
    var codes := CharCodes(t);
    CodesWithoutDot(t);
    SplitAround(s, '.', Join(codes, '.'));
    JoinThenSplit(codes, '.');
  }

  /** The normal form of a plain version followed by a trailing run. */
  lemma SuffixRunNormalized(s: string, t: string)
    requires IsBaseVersion(s) && |t| >= 1 && PlainSuffix(t)
    ensures Normalize(s + t) == s + ['.'] + Join(CharCodes(t), '.')
  {
    var w := s + t;
    BaseVersionShape(s);
    PlainText(s, t);
    StripEpochsWithoutColon(w);
    RemoveVWithoutV(w);
    assert FirstHyphenToDot(w) == w;
    TrailingRun(s, t);
    assert w[..|w| - |t|] == s && w[|w| - |t|..] == t;
  }

  /** A plain version followed by a plain suffix holds no colon, `v`, `V` or hyphen. */
  lemma PlainText(s: string, t: string)
    requires forall i | 0 <= i < |s| :: IsDigit(s[i]) || s[i] == '.'
    requires PlainSuffix(t)
    ensures ':' !in s + t && 'v' !in s + t && 'V' !in s + t && '-' !in s + t
  {
    var w := s + t;
    forall i | 0 <= i < |w| ensures w[i] != ':' && w[i] != 'v' && w[i] != 'V' && w[i] != '-' {
      if i >= |s| { assert w[i] == t[i - |s|]; }
    }
  }

  /** No printed character code holds a dot. */
  lemma CodesWithoutDot(t: string)
    ensures |CharCodes(t)| >= 1 || t == []
    ensures forall p | p in CharCodes(t) :: '.' !in p
  {
    var codes := CharCodes(t);
    forall p | p in codes ensures '.' !in p {
      var i :| 0 <= i < |codes| && codes[i] == p;
      assert forall k | 0 <= k < |p| :: IsDigit(p[k]) || p[k] == '-';
    }
  }

  /** The trailing non-digit run of `s + t` is exactly `t` when `s` ends in a digit. */
  lemma {:induction false} TrailingRun(s: string, t: string)
    requires |s| >= 1 && IsDigit(s[|s| - 1])
    requires forall i | 0 <= i < |t| :: !IsDigit(t[i])
    ensures TrailingNonDigits(s + t) == |t|
  {
    if t == [] {
      assert s + t == s;
    } else {
      assert (s + t)[..|s + t| - 1] == s + t[..|t| - 1];
      TrailingRun(s, t[..|t| - 1]);
    }
  }

  lemma LetterSuffixParts(s: string, c: char)
    requires IsBaseVersion(s)
    requires !IsDigit(c) && c != ':' && c != 'v' && c != 'V' && c != '-'
    ensures Parts(s + [c]) == Split(s, '.') + [IntToString(c as int - 97)]
  {
    LetterSuffixNormalized(s, c);
    var code := IntToString(c as int - 97);
    assert '.' !in code;
    SplitAround(s, '.', code);
    assert s + "." + code == s + ['.'] + code;
    SplitWithoutSeparator(code, '.');
  }

  /** Two part lists that agree up to one last numeric part compare by that part. */
  lemma ComparePartsLast(base: seq<string>, x1: string, x2: string, zeroExtend: bool)
    requires AllValid(base, false) && DigitPart(x1) && DigitPart(x2)
    ensures CompareParts(base + [x1], base + [x2], CompareOptions(false, zeroExtend)) ==
      CompareKeys([NumKey(DecimalValue(x1))], [NumKey(DecimalValue(x2))])
  {
    var kb := ToKeys(base, false);
    assert AllValid(base + [x1], false) && AllValid(base + [x2], false);
    assert ToKeys(base + [x1], false) == kb + [NumKey(DecimalValue(x1))];
    assert ToKeys(base + [x2], false) == kb + [NumKey(DecimalValue(x2))];
    ComparePartsUnpadded(base + [x1], base + [x2], CompareOptions(false, zeroExtend));
    CompareKeysCommonPrefix(kb, [NumKey(DecimalValue(x1))], [NumKey(DecimalValue(x2))]);
  }

  /** With a trailing lower-case letter other than `v`, the comparison comes down to the
      letters' codes. */
  lemma LetterSuffixKeys(s: string, c1: char, c2: char, zeroExtend: bool)
    requires IsBaseVersion(s)
    requires 'a' <= c1 <= 'z' && 'a' <= c2 <= 'z' && c1 != 'v' && c2 != 'v'
    ensures Compare(Some(s + [c1]), Some(s + [c2]), CompareOptions(false, zeroExtend)) ==
      CompareKeys([NumKey(c1 as int - 97)], [NumKey(c2 as int - 97)])
  {
    LetterSuffixPart(s, c1);
    LetterSuffixPart(s, c2);
    BaseVersionValid(s, false);
    ComparePartsLast(Split(s, '.'), NatToString(c1 as int - 97), NatToString(c2 as int - 97), zeroExtend);
  }

  lemma LetterSuffixPart(s: string, c: char)
    requires IsBaseVersion(s)
    requires 'a' <= c <= 'z' && c != 'v'
    ensures Parts(s + [c]) == Split(s, '.') + [NatToString(c as int - 97)]
    ensures DigitPart(NatToString(c as int - 97))
    ensures DecimalValue(NatToString(c as int - 97)) == c as int - 97
  {
    LetterSuffixParts(s, c);
    DecimalValueOfNatToString(c as int - 97);
  }

  /** "1.3b" is newer than "1.3a": in numeric mode a trailing lower-case letter compares by
      its position in the alphabet. */
  lemma LetterSuffixOrder(s: string, c1: char, c2: char, zeroExtend: bool)
    requires IsBaseVersion(s)
    requires 'a' <= c1 <= 'z' && 'a' <= c2 <= 'z' && c1 != 'v' && c2 != 'v'
    ensures Compare(Some(s + [c1]), Some(s + [c2]), CompareOptions(false, zeroExtend)) ==
      if c1 < c2 then Less else if c1 == c2 then Equal else Greater
  {
    LetterSuffixKeys(s, c1, c2, zeroExtend);
    CharCodeOrder(c1, c2);
  }

  lemma CharCodeOrder(c1: char, c2: char)
    requires 'a' <= c1 <= 'z' && 'a' <= c2 <= 'z'
    ensures CompareKeys([NumKey(c1 as int - 97)], [NumKey(c2 as int - 97)]) ==
      if c1 < c2 then Less else if c1 == c2 then Equal else Greater
  {
  }

  /** "1.3a" equals "1.3.0": the letter `a` stands for the part 0. */
  lemma LetterAIsZeroPart(s: string, options: CompareOptions)
    requires IsBaseVersion(s)
    ensures Compare(Some(s + "a"), Some(s + ".0"), options) == Equal
  {
    LetterAParts(s);
    ComparePartsReflexive(Parts(s + ".0"), options);
  }

  lemma LetterAParts(s: string)
    requires IsBaseVersion(s)
    ensures Parts(s + "a") == Parts(s + ".0")
    ensures AllValid(Parts(s + ".0"), false) && AllValid(Parts(s + ".0"), true)
  {
    LetterSuffixPart(s, 'a');
    assert s + "a" == s + ['a'];
    assert NatToString(0) == "0";
    BaseVersionWithZero(s);
    NormalizeBaseVersion(s + ".0");
  }

  /** An upper-case letter or punctuation at the end turns into a negative part, which no
      mode accepts: the comparison is NaN whatever the other version. */
  lemma SuffixBelowLowercaseIncomparable(s: string, c: char, other: Option<string>, options: CompareOptions)
    requires IsBaseVersion(s)
    requires !IsDigit(c) && c < 'a' && c != ':' && c != 'V' && c != '-'
    requires Present(other)
    ensures Compare(Some(s + [c]), other, options) == Incomparable
  {
    LetterSuffixParts(s, c);
    var parts := Parts(s + [c]);
    var bad := IntToString(c as int - 97);
    assert parts[|parts| - 1] == bad && bad[0] == '-';
    assert LeadingDigits(bad) == 0;
    assert !ValidPart(parts[|parts| - 1], options.lexicographical);
  }

  /** One more part "0" makes a part list larger, unless zero extension pads the shorter
      list. */
  lemma ComparePartsExtraZero(p: seq<string>, lexicographical: bool)
    requires AllValid(p, lexicographical)
    ensures CompareParts(p, p + ["0"], CompareOptions(lexicographical, false)) == Less
    ensures CompareParts(p, p + ["0"], CompareOptions(lexicographical, true)) == Equal
  {
    var k := ToKeys(p, lexicographical);
    assert LeadingDigits("0") == 1;
    var z := ToKey("0", lexicographical);
    assert ToKeys(p + ["0"], lexicographical) == k + [z];
    ComparePartsUnpadded(p, p + ["0"], CompareOptions(lexicographical, false));
    CompareKeysProperPrefix(k, [z]);
    assert Zeros(1) == ["0"];
    ZeroExtendSameLength(p + ["0"]);
    assert ZeroExtend(p, |p| + 1) == p + ["0"];
    CompareKeysSelf(k + [z]);
  }

  /** The key of the padding part "0". */
  function ZeroKey(lexicographical: bool): (k: Key)
    ensures ValidPart("0", lexicographical) && k == ToKey("0", lexicographical)
  {
    assert LeadingDigits("0") == 1;
    assert DecimalValue("0") == 0 by { assert "0"[..0] == []; }
    if lexicographical then StrKey("0") else NumKey(0)
  }

  /** No valid part is smaller than the padding part "0". */
  lemma ZeroKeyLeast(part: string, lexicographical: bool)
    requires ValidPart(part, lexicographical)
    ensures !KeyGreater(ZeroKey(lexicographical), ToKey(part, lexicographical))
  {
    if lexicographical {
      assert IsDigit(part[0]) by { assert part[0] == part[..LeadingDigits(part)][0]; }
      var zero: string := "0";
      assert zero[0] == '0' && zero[1..] == [];
      if part[0] == '0' {
        assert !StrLess(part[1..], zero[1..]);
      }
      assert !StrLess(part, zero);
    }
  }

  lemma ToKeysAppend(a: seq<string>, b: seq<string>, lexicographical: bool)
    requires AllValid(a, lexicographical) && AllValid(b, lexicographical)
    ensures AllValid(a + b, lexicographical)
    ensures ToKeys(a + b, lexicographical) == ToKeys(a, lexicographical) + ToKeys(b, lexicographical)
  {
  }

  lemma ZeroExtendToAppend(p: seq<string>, q: seq<string>)
    ensures ZeroExtend(p, |p| + |q|) == p + Zeros(|q|)
    ensures ZeroExtend(p + q, |p| + |q|) == p + q
  {
    if q == [] {
      assert p + Zeros(0) == p;
    }
  }

  /** The keys of `p` padded by as many zeros as `q` has parts, and those of `p + q`. */
  lemma ZeroPaddedKeys(p: seq<string>, q: seq<string>, lexicographical: bool)
    requires AllValid(p, lexicographical) && AllValid(q, lexicographical)
    ensures AllValid(Zeros(|q|), lexicographical)
    ensures AllValid(ZeroExtend(p, |p| + |q|), lexicographical) && AllValid(p + q, lexicographical)
    ensures ToKeys(ZeroExtend(p, |p| + |q|), lexicographical) ==
      ToKeys(p, lexicographical) + ToKeys(Zeros(|q|), lexicographical)
    ensures ToKeys(p + q, lexicographical) == ToKeys(p, lexicographical) + ToKeys(q, lexicographical)
  {
    var lex := lexicographical;
    assert ZeroKey(lex) == ToKey("0", lex);
    ToKeysAppend(p, q, lex);
    ToKeysAppend(p, Zeros(|q|), lex);
    ZeroExtendToAppend(p, q);
  }

  /** With zero extension and a longer second list, only the first list is padded. */
  lemma ComparePartsPadded(p1: seq<string>, p2: seq<string>, lexicographical: bool)
    requires AllValid(p1, lexicographical) && AllValid(p2, lexicographical) && |p1| <= |p2|
    ensures AllValid(ZeroExtend(p1, |p2|), lexicographical)
    ensures CompareParts(p1, p2, CompareOptions(lexicographical, true)) ==
      CompareKeys(ToKeys(ZeroExtend(p1, |p2|), lexicographical), ToKeys(p2, lexicographical))
  {
    ZeroExtendValid(p1, |p2|, lexicographical);
    ZeroExtendSameLength(p2);
  }

  /** Under zero extension, `p` against `p + q` is the padding zeros against `q`. */
  lemma ZeroPaddedParts(p: seq<string>, q: seq<string>, lexicographical: bool)
    requires AllValid(p, lexicographical) && AllValid(q, lexicographical)
    ensures AllValid(Zeros(|q|), lexicographical)
    ensures CompareParts(p, p + q, CompareOptions(lexicographical, true)) ==
      CompareKeys(ToKeys(Zeros(|q|), lexicographical), ToKeys(q, lexicographical))
  {
    var lex := lexicographical;
    ZeroPaddedKeys(p, q, lex);
    ComparePartsPadded(p, p + q, lex);
    CompareKeysCommonPrefix(ToKeys(p, lex), ToKeys(Zeros(|q|), lex), ToKeys(q, lex));
  }

  /** Keys that are all `z` against keys none of which is below `z`: Equal exactly when every
      key is `z`, Less otherwise. */
  lemma CompareKeysAgainstZeros(kz: seq<Key>, kq: seq<Key>, z: Key)
    requires |kz| == |kq| && forall j | 0 <= j < |kz| :: kz[j] == z
    requires forall j | 0 <= j < |kq| :: !KeyGreater(z, kq[j])
    ensures CompareKeys(kz, kq) == Equal <==> forall j | 0 <= j < |kq| :: kq[j] == z
    ensures CompareKeys(kz, kq) != Equal ==> CompareKeys(kz, kq) == Less
  {
    if forall j | 0 <= j < |kq| :: kq[j] == z {
      assert kz == kq;
      CompareKeysSelf(kz);
    } else {
      var i := 0;
      while kq[i] == z
        invariant 0 <= i < |kq| && forall j | 0 <= j < i :: kq[j] == z
        invariant exists j | i <= j < |kq| :: kq[j] != z
        decreases |kq| - i
      {
        i := i + 1;
      }
      assert kz[..i] == kq[..i];
      CompareKeysFirstDifference(kz, kq, i);
    }
  }

  /** Zero extension beyond the shorter list: a part list compares Equal with itself followed by
      `q` exactly when every part of `q` is zero, and otherwise Less, decided by the first
      nonzero part of `q` against a padded "0". */
  lemma ZeroExtendedTail(p: seq<string>, q: seq<string>, lexicographical: bool)
    requires AllValid(p, lexicographical) && AllValid(q, lexicographical)
    ensures CompareParts(p, p + q, CompareOptions(lexicographical, true)) == Equal <==>
      forall j | 0 <= j < |q| :: ToKey(q[j], lexicographical) == ZeroKey(lexicographical)
    ensures CompareParts(p, p + q, CompareOptions(lexicographical, true)) != Equal ==>
      CompareParts(p, p + q, CompareOptions(lexicographical, true)) == Less
  {
    var lex := lexicographical;
    ZeroPaddedParts(p, q, lex);
    var kq := ToKeys(q, lex);
    forall j | 0 <= j < |q| ensures !KeyGreater(ZeroKey(lex), kq[j]) {
      ZeroKeyLeast(q[j], lex);
    }
    CompareKeysAgainstZeros(ToKeys(Zeros(|q|), lex), kq, ZeroKey(lex));
  }

  /** "1.2" is older than "1.2.0" unless the shorter version is zero-extended, in which case
      they are equal. */
  lemma TrailingZeroPart(s: string, lexicographical: bool)
    requires IsBaseVersion(s)
    ensures Compare(Some(s), Some(s + ".0"), CompareOptions(lexicographical, false)) == Less
    ensures Compare(Some(s), Some(s + ".0"), CompareOptions(lexicographical, true)) == Equal
  {
    TrailingZeroParts(s);
    ComparePartsExtraZero(Parts(s), lexicographical);
  }

  lemma TrailingZeroParts(s: string)
    requires IsBaseVersion(s)
    ensures Parts(s + ".0") == Parts(s) + ["0"]
    ensures AllValid(Parts(s), false) && AllValid(Parts(s), true)
  {
    BaseVersionWithZero(s);
    NormalizeBaseVersion(s);
    NormalizeBaseVersion(s + ".0");
  }

  /** "v1.0" equals "1.0": a version without an epoch compares as if it had no `v`. */
  lemma VersionIgnoresV(s: string, other: Option<string>, options: CompareOptions)
    requires ':' !in s && RemoveV(s) != ""
    ensures Compare(Some(s), other, options) == Compare(Some(RemoveV(s)), other, options)
  {
    NormalizeIgnoresV(s);
    CompareSameNormalForm(s, RemoveV(s), other, options);
  }

  /** An epoch prefix `e:` is ignored by the comparison. */
  lemma VersionIgnoresEpoch(e: string, t: string, other: Option<string>, options: CompareOptions)
    requires |e| >= 1 && ':' !in e && ':' !in t && t != ""
    requires forall i | 0 <= i < |e| :: !IsLineTerminator(e[i])
    ensures Compare(Some(e + ":" + t), other, options) == Compare(Some(t), other, options)
  {
    assert e + ":" + t == e + [':'] + t;
    EpochDropped(e, t);
    StripEpochsWithoutColon(t);
    CompareSameNormalForm(e + ":" + t, t, other, options);
  }

  /** A plain version followed by one more digit part is a plain version with that part
      appended. */
  lemma AppendDigitPart(s: string, x: string)
    requires IsBaseVersion(s) && DigitPart(x)
    ensures Split(s + "." + x, '.') == Split(s, '.') + [x]
    ensures IsBaseVersion(s + "." + x)
  {
    assert '.' !in x by { assert forall k | 0 <= k < |x| :: IsDigit(x[k]); }
    SplitWithoutSeparator(x, '.');
    assert s + "." + x == s + ['.'] + x;
    SplitAround(s, '.', x);
  }

  /** Leading zeros do not matter in numeric mode: "1.007" equals "1.7". */
  lemma LeadingZerosEqual(s: string, x: string, zeroExtend: bool)
    requires IsBaseVersion(s) && DigitPart(x)
    ensures Compare(Some(s + ".0" + x), Some(s + "." + x), CompareOptions(false, zeroExtend)) == Equal
  {
    LeadingZeroIgnored(x);
    AppendDigitPart(s, "0" + x);
    AppendDigitPart(s, x);
    assert s + ".0" + x == s + "." + ("0" + x);
    NormalizeBaseVersion(s + "." + ("0" + x));
    NormalizeBaseVersion(s + "." + x);
    BaseVersionValid(s, false);
    ComparePartsLast(Split(s, '.'), "0" + x, x, zeroExtend);
  }

  /** One extra numeric part under zero extension: Equal when it is zero, Less otherwise. */
  lemma ZeroExtendedExtraKey(p: seq<string>, x: string)
    requires AllValid(p, false) && DigitPart(x)
    ensures CompareParts(p, p + [x], CompareOptions(false, true)) ==
      if DecimalValue(x) == 0 then Equal else Less
  {
    assert AllValid([x], false);
    ZeroExtendedTail(p, [x], false);
    assert ToKey([x][0], false) == NumKey(DecimalValue(x));
  }

  /** Zero extension pads the shorter version: "1.2" equals "1.2.0" but is below "1.2.3". */
  lemma ZeroExtendedExtraPart(s: string, x: string)
    requires IsBaseVersion(s) && DigitPart(x)
    ensures Compare(Some(s), Some(s + "." + x), CompareOptions(false, true)) ==
      if DecimalValue(x) == 0 then Equal else Less
  {
    AppendDigitPart(s, x);
    NormalizeBaseVersion(s);
    NormalizeBaseVersion(s + "." + x);
    ZeroExtendedExtraKey(Parts(s), x);
  }
}
