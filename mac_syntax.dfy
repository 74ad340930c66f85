/**
 * What counts as a MAC address (`MAC_REGEX`) and how it is stripped of
 * punctuation (`clean_mac`). Both wol.py and wol/wol.py define the same
 * pattern and the same function, so they are modelled once here.
 *
 * The pattern is `^([0-9a-fA-F]{2}[-:.]?){5}[0-9a-fA-F]{2}$`, used with
 * Python's `re.match`: six pairs of hexadecimal digits, each of the first
 * five optionally followed by one of `-`, `:` or `.`, chosen pair by pair.
 * Python's `$` also matches just before a final newline, so the text of a
 * MAC followed by one `\n` is accepted too.
 */
module MacSyntax {
  import opened Wrappers
  import opened Hex

  predicate IsDelimiter(c: char) {
    c == '-' || c == ':' || c == '.'
  }

  /** `str.isalnum` on ASCII characters. */
  predicate IsAlnum(c: char) {
    '0' <= c <= '9' || 'a' <= c <= 'z' || 'A' <= c <= 'Z'
  }

  /** One group of two characters of a written MAC. */
  datatype Pair = Pair(hi: char, lo: char)

  /**
   * A MAC as written: a last group, or a group, the delimiter after it (if
   * any) and the groups that follow.
   */
  datatype MacText =
    | Final(last: Pair)
    | Grouped(first: Pair, delimiter: Option<char>, rest: MacText)

  predicate ValidPair(p: Pair) {
    IsHexDigit(p.hi) && IsHexDigit(p.lo)
  }

  predicate ValidDelimiter(d: Option<char>) {
    d.None? || IsDelimiter(d.value)
  }

  /** Every group is two hexadecimal digits and every delimiter is `-`, `:` or `.`. */
  predicate Valid(t: MacText) {
    match t
    case Final(p) => ValidPair(p)
    case Grouped(p, d, r) => ValidPair(p) && ValidDelimiter(d) && Valid(r)
  }

  /** The number of groups before the last one. */
  function Delimited(t: MacText): nat {
    match t
    case Final(_) => 0
    case Grouped(_, _, r) => 1 + Delimited(r)
  }

  /** The number of groups the pattern repeats before its final pair. */
  const RepeatedGroups: nat := 5

  /** `n` + 1 hexadecimal pairs with `n` optional delimiters between them. */
  predicate WellFormedRun(t: MacText, n: nat) {
    Valid(t) && Delimited(t) == n
  }

  /** The shape the pattern describes: six pairs, five optional delimiters. */
  predicate WellFormed(t: MacText) {
    WellFormedRun(t, RepeatedGroups)
  }

  function DelimiterText(d: Option<char>): string {
    if d.Some? then [d.value] else []
  }

  /** The characters a MAC text is made of, left to right. */
  function Render(t: MacText): string {
    match t
    case Final(p) => [p.hi, p.lo]
    case Grouped(p, d, r) => [p.hi, p.lo] + DelimiterText(d) + Render(r)
  }

  /** The hexadecimal digits of a MAC text, left to right, without delimiters. */
  function Digits(t: MacText): string {
    match t
    case Final(p) => [p.hi, p.lo]
    case Grouped(p, _, r) => [p.hi, p.lo] + Digits(r)
  }

  /** The delimiter the pattern's `[-:.]?` takes right after the first group of `s`. */
  function DelimiterAfterPair(s: string): Option<char> {
    if |s| > 2 && IsDelimiter(s[2]) then Some(s[2]) else None
  }

  /** `s` starts with two hexadecimal digits. */
  predicate StartsWithPair(s: string) {
    |s| >= 2 && IsHexDigit(s[0]) && IsHexDigit(s[1])
  }

  /**
   * Matches `([0-9a-fA-F]{2}[-:.]?){n}[0-9a-fA-F]{2}` against the whole of
   * `s`, giving the groups and delimiters it read. A delimiter is never a
   * hexadecimal digit, so taking it whenever it is there is the only way a
   * match can continue. Whatever it reads is a well-formed run of `n` + 1
   * groups that spells out exactly `s`.
   */
  function Scan(s: string, n: nat): (r: Option<MacText>)
    ensures r.Some? ==> WellFormedRun(r.value, n) && Render(r.value) == s
    decreases n
  {
    if !StartsWithPair(s) then None
    else if n == 0 then
      (if |s| == 2 then Some(Final(Pair(s[0], s[1]))) else None)
    else
      var d := DelimiterAfterPair(s);
      SplitAfterPair(s);
      match Scan(s[2 + |DelimiterText(d)|..], n - 1)
      case None => None
      case Some(r) => Some(Grouped(Pair(s[0], s[1]), d, r))
  }

  /**
   * `MAC_REGEX.match(s)`: the text read when `s` matches, `None` when it
   * does not. The second branch is `$` matching before a final newline.
   * Soundness of the pattern: an accepted string is six hexadecimal pairs
   * with optional delimiters after the first five, possibly followed by one
   * newline.
   */
  function MatchMac(s: string): (r: Option<MacText>)
    ensures r.Some? ==> WellFormed(r.value)
    ensures r.Some? ==> s == Render(r.value) || s == Render(r.value) + "\n"
  {
    match Scan(s, RepeatedGroups)
    case Some(t) => Some(t)
    case None =>
      if |s| > 0 && s[|s| - 1] == '\n' then
        SplitFinalNewline(s);
        Scan(s[..|s| - 1], RepeatedGroups)
      else None
  }

  /** Python's `MAC_REGEX.match(s)` is truthy. */
  predicate IsMac(s: string) {
    MatchMac(s).Some?
  }

  /**
   * The language of `MAC_REGEX`, described without the scanner: exactly the
   * well-formed texts, with or without one final newline.
   */
  lemma MacLanguage(s: string)
    ensures IsMac(s) <==> exists t :: WellFormed(t) && (s == Render(t) || s == Render(t) + "\n")
  {
    if MatchMac(s).Some? {
      var t := MatchMac(s).value;
      assert WellFormed(t) && (s == Render(t) || s == Render(t) + "\n");
    }
    if exists t :: WellFormed(t) && (s == Render(t) || s == Render(t) + "\n") {
      var t :| WellFormed(t) && (s == Render(t) || s == Render(t) + "\n");
      MatchMacComplete(t);
    }
  }

  /** A string is its first pair, the delimiter the pattern takes after it, and the rest. */
  lemma SplitAfterPair(s: string)
    requires |s| >= 2
    ensures 2 + |DelimiterText(DelimiterAfterPair(s))| <= |s|
    ensures s == [s[0], s[1]] + DelimiterText(DelimiterAfterPair(s)) + s[2 + |DelimiterText(DelimiterAfterPair(s))|..]
  {
  }

  /** A string ending in a newline is what comes before it plus that newline. */
  lemma SplitFinalNewline(s: string)
    requires |s| > 0 && s[|s| - 1] == '\n'
    ensures s == s[..|s| - 1] + "\n"
  {
  }

  /** A spelled-out text begins and ends with a hexadecimal digit. */
  lemma {:induction false} RenderEndsWithDigits(t: MacText)
    requires Valid(t)
    ensures |Render(t)| >= 2
    ensures IsHexDigit(Render(t)[0]) && IsHexDigit(Render(t)[|Render(t)| - 1])
  {
    match t
    case Final(_) =>
    case Grouped(_, _, r) => RenderEndsWithDigits(r);
  }

  /**
   * Reading a group, its delimiter and a rest that starts with a digit
   * finds that same group and delimiter and leaves exactly that rest.
   */
  lemma JoinAfterPair(p: Pair, d: Option<char>, rest: string)
    requires ValidPair(p) && ValidDelimiter(d)
    requires |rest| > 0 && IsHexDigit(rest[0])
    ensures var s := [p.hi, p.lo] + DelimiterText(d) + rest;
      StartsWithPair(s) && s[0] == p.hi && s[1] == p.lo &&
      DelimiterAfterPair(s) == d && s[2 + |DelimiterText(d)|..] == rest
  {
    var s := [p.hi, p.lo] + DelimiterText(d) + rest;
    if d.Some? {
      assert s[2] == d.value;
    } else {
      assert s[2] == rest[0];
    }
  }

  /** One step of the scanner over a group, its delimiter and a rest that starts with a digit. */
  lemma ScanJoined(p: Pair, d: Option<char>, rest: string, n: nat)
    requires ValidPair(p) && ValidDelimiter(d) && n > 0
    requires |rest| > 0 && IsHexDigit(rest[0])
    ensures Scan([p.hi, p.lo] + DelimiterText(d) + rest, n) ==
      if Scan(rest, n - 1).Some? then Some(Grouped(p, d, Scan(rest, n - 1).value)) else None
  {
    JoinAfterPair(p, d, rest);
  }

  /** Every well-formed text, spelled out, is accepted and read back as itself. */
  lemma {:induction false} ScanComplete(t: MacText, n: nat)
    requires WellFormedRun(t, n)
    ensures Scan(Render(t), n) == Some(t)
    decreases n
  {
    match t
    case Final(_) =>
    case Grouped(p, d, r) =>
      RenderEndsWithDigits(r);
      ScanComplete(r, n - 1);
      ScanJoined(p, d, Render(r), n);
  }

  /** A run of `n` + 1 groups spells out between 2(n+1) and 3n+2 characters. */
  lemma {:induction false} RenderLength(t: MacText, n: nat)
    requires WellFormedRun(t, n)
    ensures 2 * n + 2 <= |Render(t)| <= 3 * n + 2
    decreases n
  {
    match t
    case Final(_) =>
    case Grouped(_, _, r) => RenderLength(r, n - 1);
  }

  /**
   * Completeness of `MAC_REGEX`: every such text is accepted, with or
   * without one final newline, and reads back as itself. Delimiters may
   * differ from group to group.
   */
  lemma MatchMacComplete(t: MacText)
    requires WellFormed(t)
    ensures MatchMac(Render(t)) == Some(t)
    ensures MatchMac(Render(t) + "\n") == Some(t)
  {
    ScanComplete(t, RepeatedGroups);
    var s := Render(t) + "\n";
    if Scan(s, RepeatedGroups).Some? {
      RenderEndsWithDigits(Scan(s, RepeatedGroups).value);
      assert false;
    }
    assert s[..|s| - 1] == Render(t);
  }

  /**
   * `clean_mac`: the alphanumeric characters of `s`, in their original
   * order and case.
   */
  function CleanMac(s: string): (r: string)
    ensures |r| <= |s|
    ensures forall i :: 0 <= i < |r| ==> IsAlnum(r[i])
  {
    if s == [] then [] else (if IsAlnum(s[0]) then [s[0]] else []) + CleanMac(s[1..])
  }

  /** Cleaning works piece by piece, so the kept characters stay in order. */
  lemma {:induction false} CleanMacAppend(a: string, b: string)
    ensures CleanMac(a + b) == CleanMac(a) + CleanMac(b)
    decreases |a|
  {
    if a != [] {
      assert (a + b)[1..] == a[1..] + b;
      CleanMacAppend(a[1..], b);
    } else {
      assert a + b == b;
    }
  }

  /** Each alphanumeric character is kept as often as it occurs; no other character is kept. */
  lemma {:induction false} CleanMacCounts(s: string, c: char)
    ensures multiset(CleanMac(s))[c] == if IsAlnum(c) then multiset(s)[c] else 0
    decreases |s|
  {
    if s != [] {
      CleanMacCounts(s[1..], c);
      assert s == [s[0]] + s[1..];
    }
  }

  /** A string with no punctuation is left as it is. */
  lemma {:induction false} CleanMacKeepsAlnum(s: string)
    requires forall i :: 0 <= i < |s| ==> IsAlnum(s[i])
    ensures CleanMac(s) == s
    decreases |s|
  {
    if s != [] {
      CleanMacKeepsAlnum(s[1..]);
    }
  }

  /** Cleaning twice is cleaning once. */
  lemma CleanMacIdempotent(s: string)
    ensures CleanMac(CleanMac(s)) == CleanMac(s)
  {
    CleanMacKeepsAlnum(CleanMac(s));
  }

  /** Cleaning a spelled-out text leaves exactly its hexadecimal digits. */
  lemma {:induction false} CleanMacOfRender(t: MacText)
    requires Valid(t)
    ensures CleanMac(Render(t)) == Digits(t)
  {
    var p := match t case Final(p) => p case Grouped(p, _, _) => p;
    var head := [p.hi, p.lo];
    CleanMacKeepsAlnum(head);
    match t
    case Final(_) =>
    case Grouped(_, d, r) =>
      var sep := DelimiterText(d);
      assert CleanMac(sep) == [];
      CleanMacOfRender(r);
      CleanMacAppend(head + sep, Render(r));
      CleanMacAppend(head, sep);
  }

  /** The digits of a run of `n` + 1 groups are 2(n+1) hexadecimal characters. */
  lemma {:induction false} DigitsAreHex(t: MacText, n: nat)
    requires WellFormedRun(t, n)
    ensures |Digits(t)| == 2 * n + 2 && IsHexString(Digits(t))
    decreases n
  {
    match t
    case Final(_) =>
    case Grouped(_, _, r) => DigitsAreHex(r, n - 1);
  }

  /**
   * For a string the pattern accepts, `clean_mac` gives exactly twelve
   * hexadecimal digits: the string's own digits, in order.
   */
  lemma CleanMacOfMac(s: string)
    requires IsMac(s)
    ensures CleanMac(s) == Digits(MatchMac(s).value)
    ensures |CleanMac(s)| == 12 && IsHexString(CleanMac(s))
  {
    var t := MatchMac(s).value;
    CleanMacOfRender(t);
    DigitsAreHex(t, RepeatedGroups);
    if s != Render(t) {
      CleanMacAppend(Render(t), "\n");
    }
  }

  /** A MAC has twelve to seventeen characters, plus possibly a final newline; anything longer or shorter is rejected. */
  lemma LengthOutOfRangeRejected(s: string)
    requires |s| < 12 || |s| > 18
    ensures !IsMac(s)
  {
    if IsMac(s) {
      RenderLength(MatchMac(s).value, RepeatedGroups);
    }
  }

  /** A string ending in anything but a hexadecimal digit or one newline is rejected. */
  lemma BadLastCharacterRejected(s: string)
    requires |s| > 0 && !IsHexDigit(s[|s| - 1]) && s[|s| - 1] != '\n'
    ensures !IsMac(s)
  {
    if IsMac(s) {
      RenderEndsWithDigits(MatchMac(s).value);
    }
  }

  /** A string whose third character is neither a hexadecimal digit nor `-`, `:`, `.` is rejected. */
  lemma BadSeparatorRejected(s: string)
    requires |s| > 2 && !IsHexDigit(s[2]) && !IsDelimiter(s[2])
    ensures !IsMac(s)
  {
    assert Scan(s[2..], RepeatedGroups - 1).None?;
    var shorter := s[..|s| - 1];
    if |shorter| > 2 {
      assert shorter[2] == s[2];
      assert Scan(shorter[2..], RepeatedGroups - 1).None?;
    }
  }
}
