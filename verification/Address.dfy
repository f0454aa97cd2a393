/** The canonical text of an address and its parser (internal/address/address.go). */
module Address {
  import opened Options
  import opened GoText
  import opened Numerals
  import opened Decimals

  const MAX_INT := 0x7fff_ffff_ffff_ffff

  /** An exact span of one version of one object; the fields of the other span kinds are zero. */
  datatype Address = Address(source: string, object_: string, version: string, kind: string,
                             charStart: int, charEnd: int, file: string, lineStart: int, lineEnd: int,
                             snapshot: string, rowStart: int, rowEnd: int, spanHash: string)

  // ----- printing -----

  function Itoa(n: int): string {
    if n < 0 then "-" + Print(-n) else Print(n)
  }

  function RangeText(start: int, end: int): string {
    Itoa(start) + "-" + Itoa(end)
  }

  function SpanToken(a: Address): string {
    if a.kind == "text" then "text" + "." + RangeText(a.charStart, a.charEnd)
    else if a.kind == "code" then "code" + "." + a.file + "@" + RangeText(a.lineStart, a.lineEnd)
    else if a.kind == "table" then "table" + "." + a.snapshot + "@" + RangeText(a.rowStart, a.rowEnd)
    else a.kind
  }

  /** Address.String */
  function Text(a: Address): string {
    "kv1:" + (a.source + "~" + a.object_ + ":" + a.version + ":" + SpanToken(a) + ":" + a.spanHash)
  }

  // ----- parsing -----

  /** strings.Cut at a one-byte separator: the parts around its first occurrence. */
  function Cut(s: string, sep: char): Option<(string, string)> {
    var i := IndexOf(s, sep);
    if i < |s| then Some((s[..i], s[i + 1..])) else None
  }

  /** strings.Split at a one-byte separator. */
  function Split(s: string, sep: char): seq<string>
    decreases |s|
  {
    var i := IndexOf(s, sep);
    if i < |s| then [s[..i]] + Split(s[i + 1..], sep) else [s]
  }

  /** strconv.Atoi with 64-bit int. */
  function Atoi(s: string): Option<int> {
    var negative := s != "" && s[0] == '-';
    var digits := if s != "" && (s[0] == '-' || s[0] == '+') then s[1..] else s;
    if digits == "" || !AllDigits(digits) then None
    else
      var n: int := if negative then 0 - Value(digits) else Value(digits);
      if -MAX_INT - 1 <= n <= MAX_INT then Some(n) else None
  }

  function ParseCanonicalInt(s: string): Option<int> {
    match Atoi(s)
    case None => None
    case Some(n) => if Itoa(n) == s then Some(n) else None
  }

  function ParseSpanRange(s: string): Option<(int, int)> {
    match Cut(s, '-')
    case None => None
    case Some((first, last)) =>
      if first == "" || last == "" || '-' in last then None
      else
        match (ParseCanonicalInt(first), ParseCanonicalInt(last))
        case (Some(start), Some(end)) => if end < start then None else Some((start, end))
        case _ => None
  }

  function ParseSpanAux(s: string): Option<(string, string)> {
    match Cut(s, '@')
    case None => None
    case Some((aux, rest)) => if aux == "" || rest == "" || '@' in rest then None else Some((aux, rest))
  }

  const KINDS := {"text", "code", "table"}

  function ParseSpanKind(s: string): Option<(string, string)> {
    match Cut(s, '.')
    case None => None
    case Some((kind, rest)) => if rest == "" || kind !in KINDS then None else Some((kind, rest))
  }

  predicate IsHash16(s: string) {
    |s| == 16 && LowerHex(s)
  }

  /** validHash16 */
  method ValidHash16(value: string) returns (valid: bool)
    ensures valid <==> IsHash16(value)
  {
    if |value| != 16 {
      return false;
    }
    for i := 0 to |value|
      invariant forall j :: 0 <= j < i ==> '0' <= value[j] <= '9' || 'a' <= value[j] <= 'f'
    {
      if (value[i] < '0' || value[i] > '9') && (value[i] < 'a' || value[i] > 'f') {
        return false;
      }
    }
    return true;
  }

  function ParseSpan(blank: Address, kind: string, span: string): Option<Address> {
    if kind == "text" then
      match ParseSpanRange(span)
      case None => None
      case Some((start, end)) =>
        if start < 0 then None else Some(blank.(charStart := start, charEnd := end))
    else
      match ParseSpanAux(span)
      case None => None
      case Some((aux, rest)) =>
        match ParseSpanRange(rest)
        case None => None
        case Some((start, end)) =>
          if start < 1 then None
          else if kind == "code" then Some(blank.(file := aux, lineStart := start, lineEnd := end))
          else Some(blank.(snapshot := aux, rowStart := start, rowEnd := end))
  }

  function Blank(source: string, object_: string, version: string, kind: string, spanHash: string): Address {
    Address(source, object_, version, kind, 0, 0, "", 0, 0, "", 0, 0, spanHash)
  }

  /** Parse; None is ErrMalformedAddress. */
  function Parse(value: string): Option<Address> {
    if !HasPrefix(value, "kv1:") then None
    else
      var fields := Split(value, ':');
      if |fields| != 5 || fields[0] != "kv1" then None
      else
        match Cut(fields[1], '~')
        case None => None
        case Some((source, object_)) =>
          if source == "" || object_ == "" || '~' in object_ || fields[2] == "" || !IsHash16(fields[4]) then None
          else
            match ParseSpanKind(fields[3])
            case None => None
            case Some((kind, span)) => ParseSpan(Blank(source, object_, fields[2], kind, fields[4]), kind, span)
  }

  // ----- well-formed addresses -----

  predicate Plain(s: string, forbidden: string) {
    s != "" && forall c :: c in forbidden ==> c !in s
  }

  predicate InRange(least: int, start: int, end: int) {
    least <= start <= end <= MAX_INT
  }

  /** Separator-free non-empty fields, ordered bounds of the machine's integers, the other spans' fields zero. */
  predicate WellFormed(a: Address) {
    && Plain(a.source, ":~") && Plain(a.object_, ":~") && Plain(a.version, ":") && IsHash16(a.spanHash)
    && if a.kind == "text" then
         a == Blank(a.source, a.object_, a.version, a.kind, a.spanHash).(charStart := a.charStart, charEnd := a.charEnd)
         && InRange(0, a.charStart, a.charEnd)
       else if a.kind == "code" then
         a == Blank(a.source, a.object_, a.version, a.kind, a.spanHash).(file := a.file, lineStart := a.lineStart, lineEnd := a.lineEnd)
         && Plain(a.file, ":@") && InRange(1, a.lineStart, a.lineEnd)
       else
         a.kind == "table"
         && a == Blank(a.source, a.object_, a.version, a.kind, a.spanHash).(snapshot := a.snapshot, rowStart := a.rowStart, rowEnd := a.rowEnd)
         && Plain(a.snapshot, ":@") && InRange(1, a.rowStart, a.rowEnd)
  }

  // ----- pieces -----

  lemma CutJoins(s: string, sep: char)
    ensures var cut := Cut(s, sep);
            (cut.Some? ==> s == cut.value.0 + [sep] + cut.value.1 && sep !in cut.value.0) && (cut.None? <==> sep !in s)
  {
    var i := IndexOf(s, sep);
    if i < |s| {
      assert s == s[..i] + [sep] + s[i + 1..];
    }
  }

  lemma JoinCuts(a: string, sep: char, b: string)
    requires sep !in a
    ensures Cut(a + [sep] + b, sep) == Some((a, b))
  {
    var s := a + [sep] + b;
    IndexOfAt(s, sep, |a|);
    assert s[..|a|] == a && s[|a| + 1..] == b;
  }

  lemma SplitOne(s: string, sep: char)
    requires sep !in s
    ensures Split(s, sep) == [s]
  {
    IndexOfAt(s, sep, |s|);
  }

  lemma SplitMore(a: string, sep: char, b: string)
    requires sep !in a
    ensures Split(a + [sep] + b, sep) == [a] + Split(b, sep)
  {
    JoinCuts(a, sep, b);
  }

  function JoinAll(parts: seq<string>, sep: char): string
    requires parts != []
  {
    if |parts| == 1 then parts[0] else parts[0] + [sep] + JoinAll(parts[1..], sep)
  }

  ghost predicate FreeOf(parts: seq<string>, sep: char) {
    forall i :: 0 <= i < |parts| ==> sep !in parts[i]
  }

  lemma {:induction false} SplitJoins(s: string, sep: char)
    ensures Split(s, sep) != [] && JoinAll(Split(s, sep), sep) == s && FreeOf(Split(s, sep), sep)
    decreases |s|
  {
    CutJoins(s, sep);
    var i := IndexOf(s, sep);
    if i < |s| {
      SplitJoins(s[i + 1..], sep);
      assert Split(s, sep)[1..] == Split(s[i + 1..], sep);
    }
  }

  lemma {:induction false} JoinSplits(parts: seq<string>, sep: char)
    requires parts != [] && FreeOf(parts, sep)
    ensures Split(JoinAll(parts, sep), sep) == parts
  {
    if |parts| == 1 {
      SplitOne(parts[0], sep);
    } else {
      JoinSplits(parts[1..], sep);
      SplitMore(parts[0], sep, JoinAll(parts[1..], sep));
    }
  }

  function Joined(f0: string, f1: string, f2: string, f3: string, f4: string): string {
    f0 + ":" + f1 + ":" + f2 + ":" + f3 + ":" + f4
  }

  lemma Glue(p: string, f: string, rest: string)
    ensures p + f + ":" + rest == p + (f + [':'] + rest)
  {
  }

  lemma JoinedIsJoinAll(f0: string, f1: string, f2: string, f3: string, f4: string)
    ensures JoinAll([f0, f1, f2, f3, f4], ':') == Joined(f0, f1, f2, f3, f4)
  {
    var p := [f0, f1, f2, f3, f4];
    assert p[1..] == [f1, f2, f3, f4] && p[1..][1..] == [f2, f3, f4];
    assert p[1..][1..][1..] == [f3, f4] && p[1..][1..][1..][1..] == [f4];
    var r3 := f3 + [':'] + f4;
    var r2 := f2 + [':'] + r3;
    var r1 := f1 + [':'] + r2;
    assert JoinAll([f3, f4], ':') == r3 && JoinAll([f2, f3, f4], ':') == r2 && JoinAll([f1, f2, f3, f4], ':') == r1;
    assert JoinAll(p, ':') == f0 + [':'] + r1;
    Glue(f0 + ":" + f1 + ":" + f2 + ":", f3, f4);
    Glue(f0 + ":" + f1 + ":", f2, r3);
    Glue(f0 + ":", f1, r2);
  }

  /** The text of an address, as its five fields. */
  lemma TextFields(a: Address)
    ensures Text(a) == Joined("kv1", a.source + "~" + a.object_, a.version, SpanToken(a), a.spanHash)
  {
  }

  // ----- numbers -----

  lemma DigitsOnly(n: nat)
    ensures forall c :: !IsDigit(c) ==> c !in Itoa(n)
    ensures Itoa(n) != "" && AllDigits(Itoa(n)) && Value(Itoa(n)) == n && IsDigit(Itoa(n)[0])
  {
    PrintIsCanonical(n);
  }

  /** Atoi takes an optional sign and digits, and what they denote must fit 64 bits. */
  lemma AtoiOf(sign: string, digits: string)
    requires sign in {"", "+", "-"} && digits != "" && AllDigits(digits)
    ensures var n: int := if sign == "-" then 0 - Value(digits) else Value(digits);
            Atoi(sign + digits) == if -0x8000_0000_0000_0000 <= n < 0x8000_0000_0000_0000 then Some(n) else None
  {
    assert IsDigit(digits[0]);
    if sign == "" {
      assert sign + digits == digits;
    } else {
      assert (sign + digits)[1..] == digits;
    }
  }

  lemma AtoiTakes(s: string) returns (sign: string, digits: string)
    requires Atoi(s).Some?
    ensures s == sign + digits && sign in {"", "+", "-"} && digits != "" && AllDigits(digits)
  {
    if s[0] == '-' || s[0] == '+' {
      sign, digits := [s[0]], s[1..];
    } else {
      sign, digits := "", s;
    }
  }

  lemma CanonicalInt(n: nat)
    requires n <= MAX_INT
    ensures ParseCanonicalInt(Itoa(n)) == Some(n)
  {
    DigitsOnly(n);
  }

  lemma CanonicalIntText(s: string)
    requires ParseCanonicalInt(s).Some?
    ensures Itoa(ParseCanonicalInt(s).value) == s && ParseCanonicalInt(s).value <= MAX_INT
  {
  }

  lemma NoSeparator(start: nat, end: nat, c: char)
    requires !IsDigit(c) && c != '-'
    ensures c !in RangeText(start, end)
  {
    DigitsOnly(start);
    DigitsOnly(end);
  }

  lemma RangeTextParses(start: nat, end: nat)
    requires start <= end <= MAX_INT
    ensures ParseSpanRange(RangeText(start, end)) == Some((start, end))
  {
    DigitsOnly(start);
    DigitsOnly(end);
    JoinCuts(Itoa(start), '-', Itoa(end));
    CanonicalInt(start);
    CanonicalInt(end);
  }

  /** A range that parses is the text of its bounds, and they are ordered, unsigned and in range. */
  lemma ParsedRange(s: string)
    requires ParseSpanRange(s).Some?
    ensures var (start, end) := ParseSpanRange(s).value;
            s == RangeText(start, end) && 0 <= start <= end <= MAX_INT
  {
    CutJoins(s, '-');
    var (first, last) := Cut(s, '-').value;
    CanonicalIntText(first);
    CanonicalIntText(last);
    UnsignedIsNatural(first);
  }

  lemma UnsignedIsNatural(s: string)
    requires ParseCanonicalInt(s).Some? && '-' !in s
    ensures ParseCanonicalInt(s).value >= 0
  {
    var n := ParseCanonicalInt(s).value;
    if n < 0 {
      NegativeIsSigned(n);
      assert false;
    }
  }

  lemma NegativeIsSigned(n: int)
    requires n < 0
    ensures '-' in Itoa(n)
  {
    assert Itoa(n)[0] == '-';
  }

  lemma ParsedAux(s: string)
    requires ParseSpanAux(s).Some?
    ensures var (aux, rest) := ParseSpanAux(s).value;
            s == aux + "@" + rest && aux != "" && '@' !in aux
  {
    CutJoins(s, '@');
  }

  lemma AuxParses(aux: string, start: nat, end: nat)
    requires aux != "" && '@' !in aux && start <= end <= MAX_INT
    ensures ParseSpanAux(aux + "@" + RangeText(start, end)) == Some((aux, RangeText(start, end)))
  {
    NoSeparator(start, end, '@');
    JoinCuts(aux, '@', RangeText(start, end));
  }

  // ----- the inverses -----

  lemma KindParses(kind: string, span: string)
    requires kind in KINDS && span != ""
    ensures ParseSpanKind(kind + "." + span) == Some((kind, span))
  {
    JoinCuts(kind, '.', span);
  }

  /** The span field of a well-formed address has no colon and parses back to the address. */
  lemma SpanParses(a: Address)
    requires WellFormed(a)
    ensures ':' !in SpanToken(a) && ParseSpanKind(SpanToken(a)).Some?
    ensures var (kind, span) := ParseSpanKind(SpanToken(a)).value;
            kind == a.kind && ParseSpan(Blank(a.source, a.object_, a.version, a.kind, a.spanHash), kind, span) == Some(a)
  {
    assert ':' in ":@" && '@' in ":@";
    if a.kind == "text" {
      TextSpanParses(a);
    } else if a.kind == "code" {
      RangedSpanParses("code", a.file, a.lineStart, a.lineEnd);
    } else {
      RangedSpanParses("table", a.snapshot, a.rowStart, a.rowEnd);
    }
  }

  lemma TextSpanParses(a: Address)
    requires a.kind == "text" && InRange(0, a.charStart, a.charEnd)
    ensures ':' !in SpanToken(a) && ParseSpanKind(SpanToken(a)) == Some(("text", RangeText(a.charStart, a.charEnd)))
    ensures ParseSpanRange(RangeText(a.charStart, a.charEnd)) == Some((a.charStart, a.charEnd))
  {
    NoSeparator(a.charStart, a.charEnd, ':');
    RangeTextParses(a.charStart, a.charEnd);
    KindParses("text", RangeText(a.charStart, a.charEnd));
  }

  lemma RangedSpanParses(kind: string, aux: string, start: int, end: int)
    requires (kind == "code" || kind == "table") && aux != "" && ':' !in aux && '@' !in aux && InRange(1, start, end)
    ensures ':' !in kind + "." + aux + "@" + RangeText(start, end)
    ensures ParseSpanKind(kind + "." + aux + "@" + RangeText(start, end)) == Some((kind, aux + "@" + RangeText(start, end)))
    ensures ParseSpanAux(aux + "@" + RangeText(start, end)) == Some((aux, RangeText(start, end)))
    ensures ParseSpanRange(RangeText(start, end)) == Some((start, end))
  {
    NoSeparator(start, end, ':');
    RangeTextParses(start, end);
    AuxParses(aux, start, end);
    KindThenSpan(kind, aux, RangeText(start, end));
    NoColon(kind, aux, RangeText(start, end));
  }

  lemma NoColon(kind: string, aux: string, rest: string)
    requires (kind == "code" || kind == "table") && ':' !in aux && ':' !in rest
    ensures ':' !in kind + "." + aux + "@" + rest
  {
    assert ':' !in kind;
  }

  lemma KindThenSpan(kind: string, aux: string, rest: string)
    requires kind == "code" || kind == "table"
    ensures ParseSpanKind(kind + "." + aux + "@" + rest) == Some((kind, aux + "@" + rest))
  {
    KindParses(kind, aux + "@" + rest);
    assert kind + "." + aux + "@" + rest == kind + "." + (aux + "@" + rest);
  }

  /** Parse undoes String on every well-formed address. */
  lemma ParseOfText(a: Address)
    requires WellFormed(a)
    ensures Parse(Text(a)) == Some(a)
  {
    SpanParses(a);
    TextSplits(a);
    assert '~' in ":~";
    JoinCuts(a.source, '~', a.object_);
  }

  function Fields(a: Address): seq<string> {
    ["kv1", a.source + "~" + a.object_, a.version, SpanToken(a), a.spanHash]
  }

  lemma TextSplits(a: Address)
    requires WellFormed(a) && ':' !in SpanToken(a)
    ensures Split(Text(a), ':') == Fields(a) && HasPrefix(Text(a), "kv1:")
  {
    TextFields(a);
    JoinedIsJoinAll("kv1", a.source + "~" + a.object_, a.version, SpanToken(a), a.spanHash);
    FieldsAreFree(a);
    JoinSplits(Fields(a), ':');
    StartsWith(a.source + "~" + a.object_ + ":" + a.version + ":" + SpanToken(a) + ":" + a.spanHash);
  }

  lemma StartsWith(rest: string)
    ensures HasPrefix("kv1:" + rest, "kv1:")
  {
  }

  lemma FieldsAreFree(a: Address)
    requires WellFormed(a) && ':' !in SpanToken(a)
    ensures FreeOf(Fields(a), ':')
  {
    assert ':' in ":~" && ':' in ":";
    assert ':' !in a.spanHash;
    assert ':' !in "kv1";
  }

  lemma ParsedKind(s: string)
    requires ParseSpanKind(s).Some?
    ensures var (kind, span) := ParseSpanKind(s).value;
            s == kind + "." + span && (kind == "text" || kind == "code" || kind == "table")
  {
    CutJoins(s, '.');
  }

  lemma ParsedRanged(kind: string, span: string)
    requires ParseSpanAux(span).Some? && ParseSpanRange(ParseSpanAux(span).value.1).Some? && ':' !in span
    ensures var aux := ParseSpanAux(span).value.0;
            var (start, end) := ParseSpanRange(ParseSpanAux(span).value.1).value;
            && kind + "." + span == kind + "." + aux + "@" + RangeText(start, end)
            && Plain(aux, ":@") && 0 <= start <= end <= MAX_INT
  {
    ParsedAux(span);
    var (aux, rest) := ParseSpanAux(span).value;
    ParsedRange(rest);
    SameConcat(kind, aux, rest);
    AuxIsPlain(aux, rest);
  }

  lemma SameConcat(kind: string, aux: string, rest: string)
    ensures kind + "." + (aux + "@" + rest) == kind + "." + aux + "@" + rest
  {
  }

  lemma AuxIsPlain(aux: string, rest: string)
    requires aux != "" && '@' !in aux && ':' !in aux + "@" + rest
    ensures Plain(aux, ":@")
  {
    assert aux + "@" + rest == aux + ("@" + rest);
    NotInPart(aux, "@" + rest, ':');
    assert forall c :: c in ":@" ==> c == ':' || c == '@';
  }

  lemma NotInPart(a: string, b: string, c: char)
    requires c !in a + b
    ensures c !in a && c !in b
  {
    forall x | x in a || x in b ensures x in a + b { }
  }

  lemma ParsedSpan(blank: Address, s: string)
    requires ParseSpanKind(s).Some? && blank.kind == ParseSpanKind(s).value.0
    requires blank == Blank(blank.source, blank.object_, blank.version, blank.kind, blank.spanHash)
    requires ParseSpan(blank, blank.kind, ParseSpanKind(s).value.1).Some? && ':' !in s
    ensures var a := ParseSpan(blank, blank.kind, ParseSpanKind(s).value.1).value;
            && SpanToken(a) == s && Blank(a.source, a.object_, a.version, a.kind, a.spanHash) == blank
            && (a.kind == "text" ==> InRange(0, a.charStart, a.charEnd))
            && (a.kind == "code" ==> Plain(a.file, ":@") && InRange(1, a.lineStart, a.lineEnd))
            && (a.kind == "table" ==> Plain(a.snapshot, ":@") && InRange(1, a.rowStart, a.rowEnd))
  {
    ParsedKind(s);
    var span := ParseSpanKind(s).value.1;
    NotInPart(blank.kind + ".", span, ':');
    if blank.kind == "text" {
      ParsedRange(span);
    } else {
      ParsedRanged(blank.kind, span);
    }
  }

  /** String undoes Parse: what parses is the one text of a well-formed address. */
  lemma TextOfParse(value: string)
    requires Parse(value).Some?
    ensures Text(Parse(value).value) == value && WellFormed(Parse(value).value)
  {
    SplitJoins(value, ':');
    var f := Split(value, ':');
    assert f == [f[0], f[1], f[2], f[3], f[4]];
    JoinedIsJoinAll(f[0], f[1], f[2], f[3], f[4]);
    CutJoins(f[1], '~');
    var (source, object_) := Cut(f[1], '~').value;
    var blank := Blank(source, object_, f[2], ParseSpanKind(f[3]).value.0, f[4]);
    ParsedSpan(blank, f[3]);
    TextFields(Parse(value).value);
  }

  /** Exactly the texts of well-formed addresses parse, and an address has exactly one text. */
  lemma OneTextPerAddress(value: string, a: Address)
    ensures Parse(value) == Some(a) <==> WellFormed(a) && value == Text(a)
  {
    if Parse(value) == Some(a) {
      TextOfParse(value);
    }
    if WellFormed(a) {
      ParseOfText(a);
    }
  }
}
