/** internal/runtime/versions: comparing versions and evaluating constraint lists. */
module Versions {
  import opened Wrappers
  import opened Text

  datatype Version = Version(major: nat, minor: nat, patch: nat)

  const MAX_INT: int := 0x7fff_ffff_ffff_ffff

  /** strconv.Atoi accepts exactly the numbers of the int range. */
  predicate InRange(v: Version) {
    v.major <= MAX_INT && v.minor <= MAX_INT && v.patch <= MAX_INT
  }

  /** compareVersion; components of the int range never make the difference overflow. */
  function Compare(a: Version, b: Version): (d: int)
    ensures InRange(a) && InRange(b) ==> -MAX_INT <= d <= MAX_INT
  {
    if a.major != b.major then a.major - b.major
    else if a.minor != b.minor then a.minor - b.minor
    else a.patch - b.patch
  }

  /** compareVersion is a total order whose equality is the equality of versions. */
  lemma CompareIsTotalOrder(a: Version, b: Version, c: Version)
    ensures Compare(a, b) == -Compare(b, a)
    ensures Compare(a, b) == 0 <==> a == b
    ensures Compare(a, b) <= 0 && Compare(b, c) <= 0 ==> Compare(a, c) <= 0
    ensures Compare(a, b) < 0 && Compare(b, c) <= 0 ==> Compare(a, c) < 0
  {
  }

  // ---------------------------------------------------------------- reading a version

  predicate Digit(c: char) {
    '0' <= c <= '9'
  }

  predicate Cut(c: char) {
    c == '.' || c == '-' || c == '_' || Space(c)
  }

  /** strings.FieldsFunc: the non-empty runs between cuts. */
  function Fields(s: string, current: string): seq<string> {
    if s == "" then (if current == "" then [] else [current])
    else if Cut(s[0]) then (if current == "" then [] else [current]) + Fields(s[1..], "")
    else Fields(s[1..], current + [s[0]])
  }

  function LeadingDigits(s: string): string {
    if s != "" && Digit(s[0]) then [s[0]] + LeadingDigits(s[1..]) else ""
  }

  function Value(digits: string): nat
    requires forall i :: 0 <= i < |digits| ==> Digit(digits[i])
  {
    if digits == "" then 0
    else
      assert Digit(digits[|digits| - 1]);
      10 * Value(digits[..|digits| - 1]) + (digits[|digits| - 1] as int - '0' as int)
  }

  lemma {:induction false} LeadingAreDigits(s: string)
    ensures forall i :: 0 <= i < |LeadingDigits(s)| ==> Digit(LeadingDigits(s)[i])
  {
    if s != "" && Digit(s[0]) { LeadingAreDigits(s[1..]); }
  }

  /** The numbers read from the fields: at most `room`, up to the first field that does not start
      with a digit; nothing when one is too large. */
  function Numbers(fields: seq<string>, room: nat): Option<seq<nat>> {
    if fields == [] || room == 0 || LeadingDigits(fields[0]) == "" then Some([])
    else
      LeadingAreDigits(fields[0]);
      var number := Value(LeadingDigits(fields[0]));
      if number > MAX_INT then None
      else
        var rest := Numbers(fields[1..], room - 1);
        if rest.None? then None else Some([number] + rest.value)
  }

  function DropV(s: string): string {
    if s != "" && s[0] == 'v' then s[1..] else s
  }

  function Padded(numbers: seq<nat>): Option<Version> {
    if numbers == [] then None
    else Some(Version(numbers[0], if |numbers| > 1 then numbers[1] else 0, if |numbers| > 2 then numbers[2] else 0))
  }

  /** What parseVersion computes. */
  function Parse(value: string): Option<Version> {
    var v := DropV(Trim(value));
    if v == "" then None
    else
      var numbers := Numbers(Fields(v, ""), 3);
      if numbers.None? then None else Padded(numbers.value)
  }

  lemma NothingYet(fields: seq<string>)
    ensures Numbers(fields, 3) == match Numbers(fields[0..], 3)
              case None => None
              case Some(rest) => Some([] + rest)
  {
    assert fields[0..] == fields;
    var all := Numbers(fields, 3);
    if all.Some? { assert [] + all.value == all.value; }
  }

  /** parseVersion. */
  method ParseVersion(value: string) returns (r: Option<Version>)
    ensures r == Parse(value)
  {
    var v := DropV(Trim(value));
    if v == "" { return None; }
    var fields, numbers: seq<nat> := Fields(v, ""), [];
    NothingYet(fields);
    for i := 0 to |fields|
      invariant |numbers| < 3 && i == |numbers|
      invariant Numbers(fields, 3) == match Numbers(fields[i..], 3 - i)
                  case None => None
                  case Some(rest) => Some(numbers + rest)
    {
      var digits := LeadingDigits(fields[i]);
      LeadingAreDigits(fields[i]);
      assert fields[i..][0] == fields[i] && fields[i..][1..] == fields[i + 1..];
      if digits == "" {
        assert numbers + [] == numbers;
        return Padded(numbers);
      }
      var number := Value(digits);
      if number > MAX_INT { return None; }
      var rest := Numbers(fields[i + 1..], 3 - i - 1);
      if rest.Some? { assert numbers + ([number] + rest.value) == numbers + [number] + rest.value; }
      numbers := numbers + [number];
      if |numbers| == 3 {
        assert numbers + [] == numbers;
        return Padded(numbers);
      }
    }
    assert numbers + [] == numbers;
    r := Padded(numbers);
  }

  // ---------------------------------------------------------------- printing and reading back

  function Print(n: nat): (s: string)
    ensures s != "" && forall i :: 0 <= i < |s| ==> Digit(s[i])
  {
    var last := ['0' + (n % 10) as char];
    if n < 10 then last else Print(n / 10) + last
  }

  function Show(v: Version): string {
    Print(v.major) + "." + Print(v.minor) + "." + Print(v.patch)
  }

  lemma {:induction false} ValueOfPrint(n: nat)
    ensures Value(Print(n)) == n
  {
    var last := ['0' + (n % 10) as char];
    if n < 10 {
      assert Print(n)[..0] == "";
    } else {
      ValueOfPrint(n / 10);
      assert Print(n)[..|Print(n)| - 1] == Print(n / 10);
    }
  }

  lemma {:induction false} LeadingAll(s: string)
    requires forall i :: 0 <= i < |s| ==> Digit(s[i])
    ensures LeadingDigits(s) == s
  {
    if s != "" { LeadingAll(s[1..]); }
  }

  lemma {:induction false} FieldsThrough(s: string, rest: string, current: string)
    requires forall i :: 0 <= i < |s| ==> Digit(s[i])
    ensures Fields(s + rest, current) == Fields(rest, current + s)
    decreases |s|
  {
    if s == "" {
      assert s + rest == rest && current + s == current;
    } else {
      assert (s + rest)[1..] == s[1..] + rest;
      FieldsThrough(s[1..], rest, current + [s[0]]);
      assert current + [s[0]] + s[1..] == current + s;
    }
  }

  predicate Digits(s: string) {
    s != "" && forall i :: 0 <= i < |s| ==> Digit(s[i])
  }

  lemma FieldThenDot(s: string, rest: string, whole: string)
    requires Digits(s) && whole == s + "." + rest
    ensures Fields(whole, "") == [s] + Fields(rest, "")
  {
    assert whole == s + ("." + rest) && "" + s == s;
    FieldsThrough(s, "." + rest, "");
    assert ("." + rest)[1..] == rest;
  }

  lemma LastField(s: string)
    requires Digits(s)
    ensures Fields(s, "") == [s]
  {
    assert "" + s == s && s + "" == s;
    FieldsThrough(s, "", "");
  }

  lemma NoTrim(s: string)
    requires s != "" && Digit(s[0]) && Digit(s[|s| - 1])
    ensures Trim(s) == s && DropV(s) == s
  {
  }

  lemma FieldsOfThree(a: string, b: string, c: string)
    requires Digits(a) && Digits(b) && Digits(c)
    ensures Fields(a + "." + b + "." + c, "") == [a, b, c]
  {
    var tail := b + "." + c;
    FieldThenDot(a, tail, a + "." + b + "." + c);
    FieldThenDot(b, c, tail);
    LastField(c);
    assert [b] + [c] == [b, c] && [a] + [b, c] == [a, b, c];
  }

  lemma ThreeNumbers(v: Version)
    requires InRange(v)
    ensures Numbers([Print(v.major), Print(v.minor), Print(v.patch)], 3) == Some([v.major, v.minor, v.patch])
  {
    var a, b, c := Print(v.major), Print(v.minor), Print(v.patch);
    OneNumber(c, v.patch, [], 0);
    OneNumber(b, v.minor, [c], 1);
    OneNumber(a, v.major, [b, c], 2);
    assert [c] + [] == [c] && [b] + [c] == [b, c] && [a] + [b, c] == [a, b, c];
    assert [v.patch] + [] == [v.patch];
    assert [v.minor] + [v.patch] == [v.minor, v.patch] && [v.major] + [v.minor, v.patch] == [v.major, v.minor, v.patch];
  }

  /** Reading a printed version gives it back. */
  lemma ParseUndoesShow(v: Version)
    requires InRange(v)
    ensures Parse(Show(v)) == Some(v)
  {
    var a, b, c := Print(v.major), Print(v.minor), Print(v.patch);
    var s := Show(v);
    assert s[0] == a[0] && s[|s| - 1] == c[|c| - 1];
    NoTrim(s);
    FieldsOfThree(a, b, c);
    ThreeNumbers(v);
  }

  lemma OneNumber(s: string, n: nat, rest: seq<string>, room: nat)
    requires s == Print(n) && n <= MAX_INT
    ensures Numbers([s] + rest, room + 1) == match Numbers(rest, room)
              case None => None
              case Some(more) => Some([n] + more)
  {
    LeadingAll(s);
    ValueOfPrint(n);
    assert ([s] + rest)[1..] == rest;
  }

  // ---------------------------------------------------------------- other spellings

  lemma {:induction false} LeadingUpTo(s: string, rest: string)
    requires (forall i :: 0 <= i < |s| ==> Digit(s[i])) && (rest == "" || !Digit(rest[0]))
    ensures LeadingDigits(s + rest) == s
  {
    if s == "" {
      assert s + rest == rest;
    } else {
      assert (s + rest)[1..] == s[1..] + rest;
      LeadingUpTo(s[1..], rest);
    }
  }

  /** The first field of a text goes up to its first cut. */
  lemma {:induction false} FieldGoesOn(s: string, current: string) returns (more: string)
    requires current != ""
    ensures Fields(s, current) != [] && Fields(s, current)[0] == current + more
    ensures more <= s && (more != "" ==> more[0] == s[0])
    decreases |s|
  {
    more := "";
    if s == "" || Cut(s[0]) {
      assert current + "" == current;
    } else {
      var rest := FieldGoesOn(s[1..], current + [s[0]]);
      more := [s[0]] + rest;
      assert current + [s[0]] + rest == current + more;
      assert s == [s[0]] + s[1..];
    }
  }

  lemma FieldThenCut(s: string, c: char, rest: string)
    requires Digits(s) && Cut(c)
    ensures Fields(s + [c] + rest, "") == [s] + Fields(rest, "")
  {
    assert s + [c] + rest == s + ([c] + rest) && "" + s == s && ([c] + rest)[1..] == rest;
    FieldsThrough(s, [c] + rest, "");
  }

  /** Cuts at the beginning, and so several in a row, count as one. */
  lemma SkippedCut(c: char, rest: string)
    requires Cut(c)
    ensures Fields([c] + rest, "") == Fields(rest, "")
  {
    assert ([c] + rest)[1..] == rest;
  }

  /** The fields of a version with anything behind it that does not begin with a digit. */
  lemma VersionFields(a: string, b: string, p: string, c: char, d: char, rest: string) returns (fields: seq<string>)
    requires Digits(a) && Digits(b) && Digits(p) && c in {'.', '-', '_', ' '} && d in {'.', '-', '_', ' '}
    requires rest == "" || !Digit(rest[0])
    ensures fields == Fields(a + [c] + b + [d] + p + rest, "")
    ensures |fields| >= 3 && fields[0] == a && fields[1] == b && LeadingDigits(fields[2]) == p
  {
    var tail := p + rest;
    assert a + [c] + b + [d] + p + rest == a + [c] + (b + [d] + tail);
    FieldThenCut(a, c, b + [d] + tail);
    FieldThenCut(b, d, tail);
    assert "" + p == p;
    FieldsThrough(p, rest, "");
    var more := FieldGoesOn(rest, p);
    LeadingUpTo(p, more);
    fields := [a] + ([b] + Fields(rest, p));
  }

  /** One more number in front. */
  lemma NumberFirst(fields: seq<string>, n: nat, room: nat)
    requires fields != [] && LeadingDigits(fields[0]) == Print(n) && n <= MAX_INT
    ensures Numbers(fields, room + 1) == match Numbers(fields[1..], room)
              case None => None
              case Some(more) => Some([n] + more)
  {
    ValueOfPrint(n);
  }

  lemma ThreeFields(fields: seq<string>, v: Version)
    requires |fields| >= 3 && InRange(v)
    requires fields[0] == Print(v.major) && fields[1] == Print(v.minor) && LeadingDigits(fields[2]) == Print(v.patch)
    ensures Numbers(fields, 3) == Some([v.major, v.minor, v.patch])
  {
    LeadingAll(fields[0]);
    LeadingAll(fields[1]);
    var two, one := fields[1..], fields[1..][1..];
    NumberFirst(one, v.patch, 0);
    NumberFirst(two, v.minor, 1);
    NumberFirst(fields, v.major, 2);
    assert [v.patch] + [] == [v.patch] && [v.minor] + [v.patch] == [v.minor, v.patch];
    assert [v.major] + [v.minor, v.patch] == [v.major, v.minor, v.patch];
  }

  lemma ReadAs(text: string, plain: string, fields: seq<string>, numbers: Option<seq<nat>>)
    requires plain != "" && DropV(Trim(text)) == plain && Fields(plain, "") == fields && Numbers(fields, 3) == numbers
    ensures Parse(text) == if numbers.None? then None else Padded(numbers.value)
  {
  }

  /** Dots, hyphens, underscores and spaces may stand between the numbers, a "v" in front and anything but a
      digit behind. */
  lemma SpellingsOfVersion(v: Version, c: char, d: char, rest: string)
    requires InRange(v) && c in {'.', '-', '_', ' '} && d in {'.', '-', '_', ' '}
    requires (rest == "" || !Digit(rest[0])) && Trim(rest) == rest
    ensures var text := Print(v.major) + [c] + Print(v.minor) + [d] + Print(v.patch) + rest;
            Parse(text) == Some(v) && Parse("v" + text) == Some(v)
  {
    var a, b, p := Print(v.major), Print(v.minor), Print(v.patch);
    var text := a + [c] + b + [d] + p + rest;
    var fields := VersionFields(a, b, p, c, d, rest);
    ThreeFields(fields, v);
    assert text[0] == a[0] && text[|text| - 1] == (if rest == "" then p[|p| - 1] else rest[|rest| - 1]);
    LastKept(rest);
    NothingToDrop(text);
    ReadAs(text, text, fields, Some([v.major, v.minor, v.patch]));
    ReadAs("v" + text, text, fields, Some([v.major, v.minor, v.patch]));
  }

  lemma NothingToDrop(text: string)
    requires text != "" && Digit(text[0]) && !Space(text[|text| - 1])
    ensures DropV(Trim(text)) == text && DropV(Trim("v" + text)) == text
  {
    var prefixed := "v" + text;
    assert prefixed[|prefixed| - 1] == text[|text| - 1] && prefixed[1..] == text;
  }

  lemma LastKept(s: string)
    requires Trim(s) == s
    ensures s != "" ==> !Space(s[|s| - 1])
  {
    Trimmed(s);
  }

  /** One number alone: the others are 0, and one beyond the range of a 64-bit integer is refused. */
  lemma OneNumberVersion(n: nat)
    ensures Parse(Print(n)) == if n <= 9_223_372_036_854_775_807 then Some(Version(n, 0, 0)) else None
  {
    var a := Print(n);
    NoTrim(a);
    LastField(a);
    LeadingAll(a);
    ValueOfPrint(n);
    assert Numbers([a][1..], 2) == Some([]) && [n] + [] == [n];
    ReadAs(a, a, [a], if n <= MAX_INT then Some([n]) else None);
  }

  lemma TwoNumberVersion(n: nat, m: nat)
    requires n <= 9_223_372_036_854_775_807 && m <= 9_223_372_036_854_775_807
    ensures Parse(Print(n) + "." + Print(m)) == Some(Version(n, m, 0))
  {
    var a, b := Print(n), Print(m);
    var text := a + "." + b;
    LastField(b);
    FieldThenDot(a, b, text);
    assert text[0] == a[0] && text[|text| - 1] == b[|b| - 1];
    NoTrim(text);
    LeadingAll(a);
    LeadingAll(b);
    var fields := [a] + [b];
    assert fields[1..] == [b] && Numbers([b][1..], 1) == Some([]);
    NumberFirst([b], m, 1);
    NumberFirst(fields, n, 2);
    assert [m] + [] == [m] && [n] + [m] == [n, m];
    ReadAs(text, text, fields, Some([n, m]));
  }

  /** A version without a number is none. */
  lemma EmptyVersions()
    ensures Parse("") == None && Parse("v") == None
  {
    assert Trim("") == "" && Trim("v") == "v" && "v"[1..] == "";
  }

  // ---------------------------------------------------------------- constraints

  datatype Operator = AtLeast | AtMost | Above | Below | Equal

  /** An evaluation: an answer or an error. */
  datatype Verdict = Answer(ok: bool) | Error

  /** The operators are tried in this order, so "==" is read as "=" with "=" left over. */
  function SplitOperator(part: string): (Operator, string) {
    if ">=" <= part then (AtLeast, Trim(part[2..]))
    else if "<=" <= part then (AtMost, Trim(part[2..]))
    else if ">" <= part then (Above, Trim(part[1..]))
    else if "<" <= part then (Below, Trim(part[1..]))
    else if "=" <= part then (Equal, Trim(part[1..]))
    else (Equal, part)
  }

  predicate Holds(op: Operator, observed: Version, required: Version) {
    var d := Compare(observed, required);
    match op
    case Equal => d == 0
    case AtLeast => d >= 0
    case AtMost => d <= 0
    case Above => d > 0
    case Below => d < 0
  }

  /** satisfiesOne. */
  function SatisfiesOne(version: string, part: string): Verdict {
    var (op, rest) := SplitOperator(part);
    var caret := "^" <= rest;
    var observed, required := Parse(version), Parse(if caret then rest[1..] else rest);
    if observed.None? || required.None? then Error
    else if caret then Answer(observed.value.major == required.value.major
                              && Compare(observed.value, required.value) >= 0)
    else Answer(Holds(op, observed.value, required.value))
  }

  function Parts(constraint: string): seq<string> {
    var raw := Split(constraint, ',');
    seq(|raw|, i requires 0 <= i < |raw| => Trim(raw[i]))
  }

  /** The parts in order; empty ones are skipped and the first that fails or is false decides. */
  function SatisfiesAll(version: string, parts: seq<string>): Verdict {
    if parts == [] then Answer(true)
    else if parts[0] == "" then SatisfiesAll(version, parts[1..])
    else
      var first := SatisfiesOne(version, parts[0]);
      if first == Answer(true) then SatisfiesAll(version, parts[1..]) else first
  }

  /** satisfies. */
  method Satisfies(version: string, constraint: string) returns (r: Verdict)
    ensures r == SatisfiesAll(version, Parts(constraint))
  {
    var parts := Parts(constraint);
    for i := 0 to |parts|
      invariant SatisfiesAll(version, parts) == SatisfiesAll(version, parts[i..])
    {
      assert parts[i..][0] == parts[i] && parts[i..][1..] == parts[i + 1..];
      if parts[i] != "" {
        var one := SatisfiesOne(version, parts[i]);
        if one != Answer(true) { return one; }
      }
    }
    return Answer(true);
  }

  // ---------------------------------------------------------------- what constraints mean

  /** A list is satisfied exactly when each of its parts is, in whatever order they stand. */
  lemma {:induction false} ListIsConjunction(version: string, parts: seq<string>)
    ensures SatisfiesAll(version, parts) == Answer(true)
       <==> forall p :: p in parts && p != "" ==> SatisfiesOne(version, p) == Answer(true)
  {
    if parts != [] {
      ListIsConjunction(version, parts[1..]);
      assert parts == [parts[0]] + parts[1..];
    }
  }

  /** Some part is evaluated to this. */
  ghost predicate Has(version: string, parts: seq<string>, verdict: Verdict) {
    exists p :: p in parts && p != "" && SatisfiesOne(version, p) == verdict
  }

  lemma {:induction false} VerdictIsOfAPart(version: string, parts: seq<string>)
    ensures SatisfiesAll(version, parts) == Answer(true) || Has(version, parts, SatisfiesAll(version, parts))
  {
    if parts != [] {
      VerdictIsOfAPart(version, parts[1..]);
      assert parts == [parts[0]] + parts[1..];
    }
  }

  lemma MovedToFront(parts: seq<string>, i: nat) returns (other: seq<string>)
    requires i < |parts|
    ensures other != [] && other[0] == parts[i] && multiset(other) == multiset(parts)
  {
    other := [parts[i]] + (parts[..i] + parts[i + 1..]);
    assert parts == parts[..i] + ([parts[i]] + parts[i + 1..]);
  }

  /** Whichever part stands first decides, unless it is true. */
  lemma FirstDecides(version: string, parts: seq<string>, verdict: Verdict) returns (other: seq<string>)
    requires Has(version, parts, verdict) && verdict != Answer(true)
    ensures multiset(other) == multiset(parts) && SatisfiesAll(version, other) == verdict
  {
    var p :| p in parts && p != "" && SatisfiesOne(version, p) == verdict;
    var i :| 0 <= i < |parts| && parts[i] == p;
    other := MovedToFront(parts, i);
  }

  /** Neither the order of the parts nor how often each is written matters, unless one part is false
      and another cannot be evaluated. */
  lemma OrderDoesNotMatter(version: string, a: seq<string>, b: seq<string>)
    requires (forall p :: p in a <==> p in b) && !(Has(version, a, Answer(false)) && Has(version, a, Error))
    ensures SatisfiesAll(version, a) == SatisfiesAll(version, b)
  {
    ListIsConjunction(version, a);
    ListIsConjunction(version, b);
    VerdictIsOfAPart(version, a);
    VerdictIsOfAPart(version, b);
  }

  /** Every order of the parts gives the same verdict exactly when the list does not hold both a part
      that is false and a part that cannot be evaluated: whichever of the two comes first decides. */
  lemma WhenOrderMatters(version: string, parts: seq<string>)
    ensures (forall other: seq<string> :: multiset(other) == multiset(parts) ==>
               SatisfiesAll(version, other) == SatisfiesAll(version, parts))
       <==> !(Has(version, parts, Answer(false)) && Has(version, parts, Error))
  {
    if Has(version, parts, Answer(false)) && Has(version, parts, Error) {
      var a := FirstDecides(version, parts, Answer(false));
      var b := FirstDecides(version, parts, Error);
      assert SatisfiesAll(version, a) != SatisfiesAll(version, b);
    } else {
      forall other: seq<string> | multiset(other) == multiset(parts)
        ensures SatisfiesAll(version, other) == SatisfiesAll(version, parts)
      {
        forall p ensures p in parts <==> p in other { assert p in multiset(parts) <==> p in multiset(other); }
        OrderDoesNotMatter(version, parts, other);
      }
    }
  }

  /** The order of versions: the first component that differs decides. */
  predicate Older(a: Version, b: Version) {
    || a.major < b.major
    || (a.major == b.major && a.minor < b.minor)
    || (a.major == b.major && a.minor == b.minor && a.patch < b.patch)
  }

  lemma CompareMeans(a: Version, b: Version)
    ensures Compare(a, b) < 0 <==> Older(a, b)
    ensures Compare(a, b) > 0 <==> Older(b, a)
    ensures Compare(a, b) == 0 <==> a == b
  {
  }

  /** A text that can be read as a version does not begin with a character of the operators, trimmed or
      not, and trimming does not change what is read. */
  lemma VersionBegins(base: string)
    requires Parse(base).Some?
    ensures base != "" && base[0] !in {'<', '>', '=', '^'}
    ensures Trim(base) != "" && Trim(base)[0] != '^' && Parse(Trim(base)) == Parse(base)
  {
    Trimmed(base);
    if base != "" && base[0] in {'<', '>', '=', '^'} { NoDigitNoVersion(base); }
    if Trim(base) != "" && Trim(base)[0] == '^' { NoDigitNoVersion(Trim(base)); }
  }

  lemma StrictSplit(base: string)
    requires base != "" && base[0] !in {'<', '>', '=', '^'}
    ensures SplitOperator(">" + base) == (Above, Trim(base)) && SplitOperator("<" + base) == (Below, Trim(base))
  {
    assert (">" + base)[0] == '>' && (">" + base)[1] == base[0] && (">" + base)[1..] == base;
    assert ("<" + base)[0] == '<' && ("<" + base)[1] == base[0] && ("<" + base)[1..] == base;
  }

  lemma WeakSplit(base: string)
    ensures SplitOperator(">=" + base) == (AtLeast, Trim(base)) && SplitOperator("<=" + base) == (AtMost, Trim(base))
    ensures SplitOperator("=" + base) == (Equal, Trim(base))
  {
    assert (">=" + base)[..2] == ">=" && (">=" + base)[2..] == base;
    assert ("<=" + base)[0] == '<' && ("<=" + base)[..2] == "<=" && ("<=" + base)[2..] == base;
    assert ("=" + base)[0] == '=' && ("=" + base)[1..] == base;
  }

  lemma SplitDecides(version: string, part: string, op: Operator, base: string)
    requires SplitOperator(part) == (op, base) && base != "" && base[0] != '^'
    requires Parse(version).Some? && Parse(base).Some?
    ensures var observed, required := Parse(version).value, Parse(base).value;
            SatisfiesOne(version, part) == Answer(
              match op
              case AtLeast => !Older(observed, required)
              case AtMost => !Older(required, observed)
              case Above => Older(required, observed)
              case Below => Older(observed, required)
              case Equal => observed == required)
  {
    CompareMeans(Parse(version).value, Parse(base).value);
    assert "^"[0] == '^' && !("^" <= base);
  }

  /** What each operator in front of a version asks of the observed one. */
  lemma OperatorsMean(version: string, base: string)
    requires Parse(version).Some? && Parse(base).Some?
    ensures var observed, required := Parse(version).value, Parse(base).value;
            && SatisfiesOne(version, ">=" + base) == Answer(!Older(observed, required))
            && SatisfiesOne(version, "<=" + base) == Answer(!Older(required, observed))
            && SatisfiesOne(version, ">" + base) == Answer(Older(required, observed))
            && SatisfiesOne(version, "<" + base) == Answer(Older(observed, required))
            && SatisfiesOne(version, "=" + base) == Answer(observed == required)
            && SatisfiesOne(version, base) == Answer(observed == required)
  {
    VersionBegins(base);
    StrictSplit(base);
    WeakSplit(base);
    NotAnOperator(base);
    SplitDecides(version, ">=" + base, AtLeast, Trim(base));
    SplitDecides(version, "<=" + base, AtMost, Trim(base));
    SplitDecides(version, ">" + base, Above, Trim(base));
    SplitDecides(version, "<" + base, Below, Trim(base));
    SplitDecides(version, "=" + base, Equal, Trim(base));
    SplitDecides(version, base, Equal, base);
  }

  /** A caret accepts exactly the versions from its base up to the next major version. */
  lemma CaretIsARange(version: string, base: string)
    requires Parse(version).Some? && Parse(base).Some?
    ensures SatisfiesOne(version, "^" + base)
         == Answer(Compare(Parse(version).value, Parse(base).value) >= 0
                   && Compare(Parse(version).value, Version(Parse(base).value.major + 1, 0, 0)) < 0)
  {
    var part := "^" + base;
    assert part[0] == '^' && part[1..] == base;
    NotAnOperator(part);
  }

  lemma NotAnOperator(part: string)
    requires part != "" && part[0] !in {'<', '>', '='}
    ensures SplitOperator(part) == (Equal, part)
  {
    assert ">="[0] == '>' && "<="[0] == '<' && ">"[0] == '>' && "<"[0] == '<' && "="[0] == '=';
  }

  lemma {:induction false} TrimKeepsHead(s: string)
    requires s != "" && !Space(s[0])
    ensures Trim(s) != "" && Trim(s)[0] == s[0]
    decreases |s|
  {
    assert TrimLeft(s) == s;
    if Space(s[|s| - 1]) {
      TrimKeepsHead(s[..|s| - 1]);
      assert TrimLeft(s[..|s| - 1]) == s[..|s| - 1];
    }
  }

  /** A text whose first field does not start with a digit is no version. */
  lemma NoDigitNoVersion(s: string)
    requires s != "" && s[0] != 'v' && !Digit(s[0]) && !Cut(s[0])
    ensures Parse(s).None?
  {
    TrimKeepsHead(s);
    var v := Trim(s);
    assert "" + v == v;
    FirstField(v, "");
  }

  lemma {:induction false} FirstField(s: string, current: string)
    requires current + s != "" && (current == "" ==> !Cut(s[0]))
    ensures Fields(s, current) != [] && Fields(s, current)[0] != "" && Fields(s, current)[0][0] == (current + s)[0]
    decreases |s|
  {
    if s != "" && !Cut(s[0]) {
      assert current + [s[0]] + s[1..] == current + s;
      FirstField(s[1..], current + [s[0]]);
    }
  }

  /** "==" is never evaluated: what is left after "=" starts with "=" and is no version. */
  lemma DoubleEqualIsAnError(version: string, rest: string)
    ensures SatisfiesOne(version, "==" + rest) == Error
  {
    var part, remains := "==" + rest, "=" + rest;
    EqualIsTried(part, remains);
    TrimKeepsHead(remains);
    NoDigitNoVersion(Trim(remains));
  }

  lemma EqualIsTried(part: string, rest: string)
    requires part == "=" + rest
    ensures SplitOperator(part) == (Equal, Trim(rest))
  {
    assert part[0] == '=' && part[1..] == rest;
    assert ">="[0] == '>' && "<="[0] == '<' && ">"[0] == '>' && "<"[0] == '<';
  }
}
