/** The JavaScript string operations the tunnel relies on, written out on
    `seq<char>`: `indexOf`, `split` and `join` with a string separator,
    `trim`, `parseInt` and the decimal/hexadecimal rendering of a number. */
module Text {
  import opened Common

  const CRLF: string := "\r\n"

  /** `sep` occurs in `s` starting at index `i`. */
  predicate OccursAt(s: string, sep: string, i: nat)
  {
    i + |sep| <= |s| && s[i..i + |sep|] == sep
  }

  /** `s` contains no occurrence of `sep`. */
  ghost predicate Free(s: string, sep: string)
  {
    forall i: nat :: !OccursAt(s, sep, i)
  }

  lemma OccursShift(s: string, sep: string, j: nat)
    requires |s| >= 1
    ensures OccursAt(s[1..], sep, j) <==> OccursAt(s, sep, j + 1)
  {
    if j + 1 + |sep| <= |s| {
      assert s[1..][j..j + |sep|] == s[j + 1..j + 1 + |sep|];
    }
  }

  /** The first index at which `sep` occurs in `s`, as `indexOf` finds it
      (`IndexOfIsFirst` shows it is the first). */
  function IndexOf(s: string, sep: string): (r: Option<nat>)
    requires sep != []
    ensures r.Some? ==> OccursAt(s, sep, r.value)
    decreases |s|
  {
    if |s| < |sep| then None
    else if s[..|sep|] == sep then Some(0)
    else
      match IndexOf(s[1..], sep)
      case None => None
      case Some(k) =>
        OccursShift(s, sep, k);
        Some(k + 1)
  }

  /** `IndexOf` finds the first occurrence, and none when there is none. */
  lemma {:induction false} IndexOfIsFirst(s: string, sep: string)
    requires sep != []
    ensures IndexOf(s, sep).Some? ==> forall j: nat :: j < IndexOf(s, sep).value ==> !OccursAt(s, sep, j)
    ensures IndexOf(s, sep).None? ==> Free(s, sep)
    decreases |s|
  {
    if |s| >= |sep| && s[..|sep|] != sep {
      IndexOfIsFirst(s[1..], sep);
      forall j: nat | j > 0 ensures OccursAt(s, sep, j) <==> OccursAt(s[1..], sep, j - 1) {
        OccursShift(s, sep, j - 1);
      }
    }
  }

  /** An occurrence with none before it is the one `IndexOf` reports. */
  lemma FirstOccurrence(s: string, sep: string, i: nat)
    requires sep != []
    requires OccursAt(s, sep, i)
    requires forall j: nat :: j < i ==> !OccursAt(s, sep, j)
    ensures IndexOf(s, sep) == Some(i)
  {
    IndexOfIsFirst(s, sep);
  }

  /** `s.split(sep)` for a non-empty string separator. */
  function Split(s: string, sep: string): (parts: seq<string>)
    requires sep != []
    ensures |parts| >= 1
    decreases |s|
  {
    match IndexOf(s, sep)
    case None => [s]
    case Some(i) => [s[..i]] + Split(s[i + |sep|..], sep)
  }

  /** `parts.join(sep)`. */
  function Join(parts: seq<string>, sep: string): string
  {
    if |parts| == 0 then ""
    else if |parts| == 1 then parts[0]
    else parts[0] + sep + Join(parts[1..], sep)
  }

  /** Joining two non-empty runs of pieces puts one separator between the
      two joined runs. */
  lemma {:induction false} JoinAppend(xs: seq<string>, ys: seq<string>, sep: string)
    requires |xs| >= 1 && |ys| >= 1
    ensures Join(xs + ys, sep) == Join(xs, sep) + sep + Join(ys, sep)
    decreases |xs|
  {
    if |xs| == 1 {
      assert (xs + ys)[1..] == ys;
    } else {
      assert (xs + ys)[1..] == xs[1..] + ys;
      JoinAppend(xs[1..], ys, sep);
    }
  }

  /** Joining the pieces of a split with the same separator gives back the
      original string. */
  lemma {:induction false} JoinSplit(s: string, sep: string)
    requires sep != []
    ensures Join(Split(s, sep), sep) == s
    decreases |s|
  {
    match IndexOf(s, sep)
    case None =>
    case Some(i) =>
      var rest := s[i + |sep|..];
      var tail := Split(rest, sep);
      JoinSplit(rest, sep);
      assert Split(s, sep) == [s[..i]] + tail;
      assert ([s[..i]] + tail)[1..] == tail;
      assert Join([s[..i]] + tail, sep) == s[..i] + sep + Join(tail, sep);
      assert s == s[..i] + sep + rest by {
        assert s[i..i + |sep|] == sep;
      }
  }

  lemma PrefixFree(s: string, sep: string, i: nat)
    requires sep != []
    requires i <= |s|
    requires forall j: nat :: j < i ==> !OccursAt(s, sep, j)
    ensures Free(s[..i], sep)
  {
    forall j: nat ensures !OccursAt(s[..i], sep, j) {
      if OccursAt(s[..i], sep, j) {
        assert s[..i][j..j + |sep|] == s[j..j + |sep|];
        assert OccursAt(s, sep, j) && j < i;
        assert false;
      }
    }
  }

  /** No piece of a split contains the separator. */
  lemma {:induction false} SplitPartsFree(s: string, sep: string)
    requires sep != []
    ensures forall p :: p in Split(s, sep) ==> Free(p, sep)
    decreases |s|
  {
    IndexOfIsFirst(s, sep);
    match IndexOf(s, sep)
    case None =>
    case Some(i) =>
      SplitPartsFree(s[i + |sep|..], sep);
      PrefixFree(s, sep, i);
  }

  lemma OccursCrlf(s: string, j: nat)
    ensures OccursAt(s, CRLF, j) <==> j + 2 <= |s| && s[j] == '\r' && s[j + 1] == '\n'
  {
    if j + 2 <= |s| && s[j] == '\r' && s[j + 1] == '\n' {
      assert s[j..j + 2] == CRLF;
    }
  }

  /** The number of CRLF pairs in `s`; two such pairs never overlap. */
  function CountCrlf(s: string): nat
    decreases |s|
  {
    if |s| < 2 then 0
    else (if s[0] == '\r' && s[1] == '\n' then 1 else 0) + CountCrlf(s[1..])
  }

  lemma {:induction false} CountSkip(s: string, k: nat)
    requires k <= |s|
    requires forall j: nat :: j < k ==> !OccursAt(s, CRLF, j)
    ensures CountCrlf(s) == CountCrlf(s[k..])
    decreases k
  {
    if k > 0 {
      OccursCrlf(s, 0);
      forall j: nat | j < k - 1 ensures !OccursAt(s[1..], CRLF, j) {
        OccursShift(s, CRLF, j);
      }
      CountSkip(s[1..], k - 1);
      assert s[1..][k - 1..] == s[k..];
    }
  }

  /** Splitting on CRLF yields one more piece than there are CRLF pairs. */
  lemma {:induction false} SplitCrlfCount(s: string)
    ensures |Split(s, CRLF)| == CountCrlf(s) + 1
    decreases |s|
  {
    IndexOfIsFirst(s, CRLF);
    match IndexOf(s, CRLF)
    case None =>
      CountSkip(s, |s|);
    case Some(i) =>
      SplitCrlfCount(s[i + 2..]);
      CountSkip(s, i);
      OccursCrlf(s, i);
      var t := s[i..];
      assert t[1..] == s[i + 1..];
      assert t[1..][1..] == s[i + 2..];
  }

  /** Splitting on CRLF undoes joining with CRLF, provided no piece contains
      a CRLF pair. */
  lemma {:induction false} SplitJoinCrlf(parts: seq<string>)
    requires |parts| >= 1
    requires forall p :: p in parts ==> Free(p, CRLF)
    ensures Split(Join(parts, CRLF), CRLF) == parts
    decreases |parts|
  {
    if |parts| == 1 {
      assert Free(parts[0], CRLF);
    } else {
      assert Free(parts[0], CRLF);
      SplitJoinCrlf(parts[1..]);
      SplitAtCrlf(parts[0], Join(parts[1..], CRLF));
    }
  }

  /** The first CRLF pair after a CRLF-free piece is where the split cuts. */
  lemma SplitAtCrlf(p: string, rest: string)
    requires Free(p, CRLF)
    ensures Split(p + CRLF + rest, CRLF) == [p] + Split(rest, CRLF)
  {
    var s := p + CRLF + rest;
    OccursCrlf(s, |p|);
    forall j: nat | j < |p| ensures !OccursAt(s, CRLF, j) {
      OccursCrlf(s, j);
      OccursCrlf(p, j);
    }
    FirstOccurrence(s, CRLF, |p|);
    assert s[..|p|] == p;
    assert s[|p| + 2..] == rest;
  }

  /** A string without the character `c` has no occurrence of `[c]`. */
  lemma FreeOfChar(s: string, c: char)
    requires c !in s
    ensures Free(s, [c])
  {
    forall i: nat ensures !OccursAt(s, [c], i) {
      if i < |s| {
        assert s[i..i + 1] == [s[i]];
      }
    }
  }

  /** A string without a carriage return has no CRLF pair. */
  lemma FreeOfCr(s: string)
    requires '\r' !in s
    ensures Free(s, CRLF)
  {
    forall i: nat ensures !OccursAt(s, CRLF, i) {
      OccursCrlf(s, i);
    }
  }

  /** Splitting on a single character undoes joining with it, provided no
      piece contains that character. */
  lemma {:induction false} SplitJoinChar(parts: seq<string>, c: char)
    requires |parts| >= 1
    requires forall p :: p in parts ==> c !in p
    ensures Split(Join(parts, [c]), [c]) == parts
    decreases |parts|
  {
    var p := parts[0];
    if |parts| == 1 {
      FreeOfChar(p, c);
    } else {
      var rest := Join(parts[1..], [c]);
      var s := p + [c] + rest;
      assert s[|p|..|p| + 1] == [c];
      forall j: nat | j < |p| ensures !OccursAt(s, [c], j) {
        assert s[j] == p[j];
      }
      FirstOccurrence(s, [c], |p|);
      assert s[..|p|] == p;
      assert s[|p| + 1..] == rest;
      SplitJoinChar(parts[1..], c);
    }
  }

  /** The characters `String.prototype.trim` and `parseInt` skip: ECMAScript
      WhiteSpace and LineTerminator. */
  predicate IsWhite(c: char)
  {
    c == '\t' || c == '\n' || c == '\U{B}' || c == '\U{C}' || c == '\r' || c == ' '
    || c == '\U{A0}' || c == '\U{1680}' || ('\U{2000}' <= c <= '\U{200A}')
    || c == '\U{2028}' || c == '\U{2029}' || c == '\U{202F}' || c == '\U{205F}'
    || c == '\U{3000}' || c == '\U{FEFF}'
  }

  /** `s` without its leading white space. */
  function TrimStart(s: string): (r: string)
    ensures |r| <= |s| && r == s[|s| - |r|..]
    ensures r == [] || !IsWhite(r[0])
  {
    if s != [] && IsWhite(s[0]) then TrimStart(s[1..]) else s
  }

  /** `s` without its trailing white space. */
  function TrimEnd(s: string): (r: string)
    ensures |r| <= |s| && r == s[..|r|]
    ensures r == [] || !IsWhite(r[|r| - 1])
  {
    if s != [] && IsWhite(s[|s| - 1]) then TrimEnd(s[..|s| - 1]) else s
  }

  /** `s.trim()`. */
  function Trim(s: string): (r: string)
    ensures |r| <= |s|
    ensures r == [] || (!IsWhite(r[0]) && !IsWhite(r[|r| - 1]))
  {
    TrimEnd(TrimStart(s))
  }

  /** Text that neither starts nor ends with white space is its own trim. */
  lemma TrimUnchanged(s: string)
    requires s == [] || (!IsWhite(s[0]) && !IsWhite(s[|s| - 1]))
    ensures Trim(s) == s
  {
    assert TrimStart(s) == s;
  }

  /** Trimming removes one leading white-space character. */
  lemma TrimLeadingWhite(c: char, s: string)
    requires IsWhite(c)
    ensures Trim([c] + s) == Trim(s)
  {
    assert ([c] + s)[1..] == s;
  }

  /** The value of a character read as a digit, in radixes up to 36. */
  function DigitValue(c: char): (d: Option<nat>)
    ensures d.Some? ==> d.value < 36
  {
    if '0' <= c <= '9' then Some(c as int - '0' as int)
    else if 'a' <= c <= 'z' then Some(c as int - 'a' as int + 10)
    else if 'A' <= c <= 'Z' then Some(c as int - 'A' as int + 10)
    else None
  }

  predicate IsDigit(c: char, radix: nat)
  {
    DigitValue(c).Some? && DigitValue(c).value < radix
  }

  /** The length of the longest prefix of `s` made of digits of `radix`. */
  function DigitRun(s: string, radix: nat): (n: nat)
    ensures n <= |s|
    ensures n < |s| ==> !IsDigit(s[n], radix)
  {
    if s == [] || !IsDigit(s[0], radix) then 0 else 1 + DigitRun(s[1..], radix)
  }

  /** The number a string of digits denotes, most significant digit first
      (a character that is not a digit counts as 0). */
  function DigitsValue(s: string, radix: nat): nat
  {
    if s == [] then 0
    else
      var d := DigitValue(s[|s| - 1]);
      DigitsValue(s[..|s| - 1], radix) * radix + (if d.Some? then d.value else 0)
  }

  /** `Number.parseInt(s, radix)`, with radix 0 standing for an omitted
      radix and `None` for `NaN`. */
  function ParseInt(s: string, radix: nat): Option<int>
  {
    if radix != 0 && (radix < 2 || radix > 36) then None
    else ParseTrimmed(TrimStart(s), radix)
  }

  /** `parseInt` of text with no leading white space, in a valid radix: an
      optional sign, then the unsigned number. */
  function ParseTrimmed(t: string, radix: nat): Option<int>
  {
    var u := if |t| > 0 && (t[0] == '-' || t[0] == '+') then t[1..] else t;
    match ParseUnsigned(u, radix)
    case None => None
    case Some(value) => var n: int := value; Some(if |t| > 0 && t[0] == '-' then -n else n)
  }

  /** The number after the sign: a `0x` prefix selects radix 16 when the
      radix is omitted or 16, an omitted radix is otherwise 10. */
  function ParseUnsigned(u: string, radix: nat): Option<nat>
  {
    var hexPrefix := (radix == 0 || radix == 16) && |u| >= 2 && u[0] == '0' && (u[1] == 'x' || u[1] == 'X');
    var r := if hexPrefix then 16 else if radix == 0 then 10 else radix;
    LeadingDigits(if hexPrefix then u[2..] else u, r)
  }

  /** The value of the longest run of digits at the head of `v`; none when
      `v` does not start with a digit. */
  function LeadingDigits(v: string, radix: nat): Option<nat>
  {
    var n := DigitRun(v, radix);
    if n == 0 then None else Some(DigitsValue(v[..n], radix))
  }

  /** The lower-case digit character for `d`. */
  function DigitChar(d: nat): (c: char)
    requires d < 16
    ensures DigitValue(c) == Some(d)
  {
    if d < 10 then ('0' as int + d) as char else ('a' as int + d - 10) as char
  }

  /** `n.toString(radix)` for a non-negative integer. */
  function NatToDigits(n: nat, radix: nat): (s: string)
    requires 2 <= radix <= 16
    ensures |s| >= 1
    ensures forall k :: 0 <= k < |s| ==> IsDigit(s[k], radix)
    ensures |s| > 1 ==> s[0] != '0'
    decreases n
  {
    if n < radix then [DigitChar(n)]
    else
      DivideByRadix(n, radix);
      NatToDigits(n / radix, radix) + [DigitChar(n % radix)]
  }

  lemma DivideByRadix(n: nat, radix: nat)
    requires 2 <= radix <= n
    ensures 1 <= n / radix < n && n % radix < radix
    ensures n == n / radix * radix + n % radix
  {
  }

  lemma {:induction false} DigitsValueOfNat(n: nat, radix: nat)
    requires 2 <= radix <= 16
    ensures DigitsValue(NatToDigits(n, radix), radix) == n
    decreases n
  {
    var s := NatToDigits(n, radix);
    if n >= radix {
      DivideByRadix(n, radix);
      DigitsValueOfNat(n / radix, radix);
      assert s[..|s| - 1] == NatToDigits(n / radix, radix);
      assert DigitValue(s[|s| - 1]) == Some(n % radix);
    }
  }

  /** Reading back the rendering of a number with `parseInt` in the same
      radix gives the number. */
  lemma ParseIntOfDigits(n: nat, radix: nat)
    requires 2 <= radix <= 16
    ensures ParseInt(NatToDigits(n, radix), radix) == Some(n)
  {
    ParseDigitsWith(n, radix, radix);
  }

  /** With the radix omitted, `parseInt` reads a decimal rendering back. */
  lemma ParseIntOfDecimal(n: nat)
    ensures ParseInt(NatToDigits(n, 10), 0) == Some(n)
  {
    ParseDigitsWith(n, 10, 0);
  }

  lemma ParseDigitsWith(n: nat, radix: nat, given: nat)
    requires 2 <= radix <= 16
    requires given == radix || (given == 0 && radix == 10)
    ensures ParseInt(NatToDigits(n, radix), given) == Some(n)
  {
    ParseDigitString(NatToDigits(n, radix), radix, given);
    DigitsValueOfNat(n, radix);
  }

  /** `parseInt` reads a string of digits without a leading zero whole. */
  lemma ParseDigitString(s: string, radix: nat, given: nat)
    requires 2 <= radix <= 16
    requires given == radix || (given == 0 && radix == 10)
    requires s != [] && forall k :: 0 <= k < |s| ==> IsDigit(s[k], radix)
    requires |s| > 1 ==> s[0] != '0'
    ensures ParseInt(s, given) == Some(DigitsValue(s, radix))
  {
    NotWhiteDigit(s[0], radix);
    assert TrimStart(s) == s;
    assert ParseUnsigned(s, given) == LeadingDigits(s, radix) by {
      assert !(|s| >= 2 && s[0] == '0');
    }
    LeadingDigitsAll(s, radix);
  }

  /** A string made only of digits is read whole. */
  lemma LeadingDigitsAll(s: string, radix: nat)
    requires s != [] && forall k :: 0 <= k < |s| ==> IsDigit(s[k], radix)
    ensures LeadingDigits(s, radix) == Some(DigitsValue(s, radix))
  {
    DigitRunAll(s, radix);
    assert s[..|s|] == s;
  }

  lemma NotWhiteDigit(c: char, radix: nat)
    requires IsDigit(c, radix)
    ensures !IsWhite(c) && c != '-' && c != '+'
  {
  }

  lemma {:induction false} DigitRunAll(s: string, radix: nat)
    requires forall k :: 0 <= k < |s| ==> IsDigit(s[k], radix)
    ensures DigitRun(s, radix) == |s|
  {
    if s != [] {
      DigitRunAll(s[1..], radix);
    }
  }

  /** Leading white space does not change what `parseInt` reads. */
  lemma ParseIntSkipsWhite(s: string, radix: nat)
    requires s != [] && IsWhite(s[0])
    ensures ParseInt(s, radix) == ParseInt(s[1..], radix)
  {
    assert TrimStart(s) == TrimStart(s[1..]);
  }

  /** A string of digits denotes zero exactly when every digit is `0`. */
  lemma {:induction false} DigitsValueZero(s: string, radix: nat)
    requires forall k :: 0 <= k < |s| ==> IsDigit(s[k], radix)
    ensures DigitsValue(s, radix) == 0 <==> forall k :: 0 <= k < |s| ==> s[k] == '0'
    decreases |s|
  {
    if s != [] {
      var init := s[..|s| - 1];
      var last := s[|s| - 1];
      assert forall k :: 0 <= k < |init| ==> init[k] == s[k];
      DigitsValueZero(init, radix);
      ZeroDigit(last, radix);
      ZeroSum(DigitsValue(init, radix), radix, DigitValue(last).value);
    }
  }

  lemma ZeroDigit(c: char, radix: nat)
    requires IsDigit(c, radix)
    ensures radix >= 1
    ensures DigitValue(c).value == 0 <==> c == '0'
  {
  }

  lemma ZeroSum(a: nat, radix: nat, d: nat)
    requires radix >= 1
    ensures a * radix + d == 0 <==> a == 0 && d == 0
  {
    if a > 0 {
      assert a * radix >= radix;
    }
  }

  /** Everything `TrimStart` drops is white space. */
  lemma {:induction false} TrimStartDropsWhite(s: string)
    ensures forall k :: 0 <= k < |s| - |TrimStart(s)| ==> IsWhite(s[k])
    decreases |s|
  {
    if s != [] && IsWhite(s[0]) {
      TrimStartDropsWhite(s[1..]);
      assert forall k :: 1 <= k < |s| - |TrimStart(s)| ==> s[k] == s[1..][k - 1];
    }
  }

  /** Everything `TrimEnd` drops is white space. */
  lemma {:induction false} TrimEndDropsWhite(s: string)
    ensures forall k :: |TrimEnd(s)| <= k < |s| ==> IsWhite(s[k])
    decreases |s|
  {
    if s != [] && IsWhite(s[|s| - 1]) {
      TrimEndDropsWhite(s[..|s| - 1]);
      assert forall k :: |TrimEnd(s)| <= k < |s| - 1 ==> s[k] == s[..|s| - 1][k];
    }
  }

  /** The run `DigitRun` measures is made of digits. */
  lemma {:induction false} DigitRunDigits(s: string, radix: nat)
    ensures forall k :: 0 <= k < DigitRun(s, radix) ==> IsDigit(s[k], radix)
    decreases |s|
  {
    if s != [] && IsDigit(s[0], radix) {
      DigitRunDigits(s[1..], radix);
      assert forall k :: 1 <= k < DigitRun(s, radix) ==> s[k] == s[1..][k - 1];
    }
  }
}
