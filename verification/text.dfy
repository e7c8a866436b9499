/**
 String primitives the program relies on from the .NET base library: String.Trim,
 ToLowerInvariant, IndexOf (ordinal and ordinal-ignore-case), String.Split(char) and
 the decimal rendering of a non-negative integer. Strings are sequences of characters.
 */
module Text {

  /** Char.IsWhiteSpace: the Unicode space separators, the line and paragraph separators,
      the controls U+0009..U+000D and U+0085. */
  predicate IsWhiteSpace(c: char) {
    || '\U{0009}' <= c <= '\U{000D}'
    || c == ' ' || c == '\U{0085}' || c == '\U{00A0}' || c == '\U{1680}'
    || '\U{2000}' <= c <= '\U{200A}'
    || c == '\U{2028}' || c == '\U{2029}' || c == '\U{202F}' || c == '\U{205F}' || c == '\U{3000}'
  }

  /** The number of white-space characters `s` starts with. */
  function LeadingWhiteSpace(s: string): (n: nat)
    ensures n <= |s|
    ensures forall i :: 0 <= i < n ==> IsWhiteSpace(s[i])
    ensures n < |s| ==> !IsWhiteSpace(s[n])
  {
    if |s| > 0 && IsWhiteSpace(s[0]) then 1 + LeadingWhiteSpace(s[1..]) else 0
  }

  /** String.TrimStart(): drops the leading white space and nothing else. */
  function TrimStart(s: string): (r: string)
    ensures r == s[LeadingWhiteSpace(s)..]
    ensures |r| > 0 ==> !IsWhiteSpace(r[0])
  {
    s[LeadingWhiteSpace(s)..]
  }

  /** String.TrimEnd(): drops the trailing white space and nothing else. */
  function TrimEnd(s: string): (r: string)
    ensures |r| <= |s| && r == s[..|r|]
    ensures forall i :: |r| <= i < |s| ==> IsWhiteSpace(s[i])
    ensures |r| > 0 ==> !IsWhiteSpace(r[|r| - 1])
  {
    if |s| > 0 && IsWhiteSpace(s[|s| - 1]) then TrimEnd(s[..|s| - 1]) else s
  }

  /** String.Trim(): the infix of `s` left after its leading and trailing white space,
      which neither starts nor ends with white space. */
  function Trim(s: string): (r: string)
    ensures LeadingWhiteSpace(s) + |r| <= |s|
    ensures r == s[LeadingWhiteSpace(s)..LeadingWhiteSpace(s) + |r|]
    ensures forall i :: LeadingWhiteSpace(s) + |r| <= i < |s| ==> IsWhiteSpace(s[i])
    ensures |r| > 0 ==> !IsWhiteSpace(r[0]) && !IsWhiteSpace(r[|r| - 1])
  {
    var a := LeadingWhiteSpace(s);
    var t := TrimStart(s);
    var r := TrimEnd(t);
    assert forall i :: a + |r| <= i < |s| ==> s[i] == t[i - a];
    r
  }

  /** Trimming is idempotent: a trimmed string has nothing left to trim. */
  lemma TrimIdempotent(s: string)
    ensures Trim(Trim(s)) == Trim(s)
  {
    var r := Trim(s);
    if |r| > 0 {
      assert TrimStart(r) == r;
      assert TrimEnd(r) == r;
    }
  }

  /** Char.ToLowerInvariant restricted to ASCII: upper-case Latin letters map to lower case. */
  function LowerChar(c: char): char {
    if 'A' <= c <= 'Z' then (c as int + 32) as char else c
  }

  /** String.ToLowerInvariant, letter by letter. */
  function Lower(s: string): (r: string)
    ensures |r| == |s|
    ensures forall i :: 0 <= i < |s| ==> r[i] == LowerChar(s[i])
  {
    seq(|s|, i requires 0 <= i < |s| => LowerChar(s[i]))
  }

  /** String.Equals(a, b, StringComparison.OrdinalIgnoreCase) for ASCII letters. */
  predicate EqualsIgnoreCase(a: string, b: string) {
    Lower(a) == Lower(b)
  }

  /** String.IndexOf(c): the first position holding `c`, or -1 when there is none. */
  function IndexOf(s: string, c: char): (r: int)
    ensures -1 <= r < |s|
    ensures r == -1 <==> c !in s
    ensures 0 <= r ==> s[r] == c && c !in s[..r]
  {
    if |s| == 0 then -1
    else if s[0] == c then 0
    else
      var k := IndexOf(s[1..], c);
      assert s[1..][..if k < 0 then 0 else k] == s[1..1 + if k < 0 then 0 else k];
      if k < 0 then -1 else k + 1
  }

  /** String.LastIndexOf(c): the last position holding `c`, or -1 when there is none. */
  function LastIndexOf(s: string, c: char): (r: int)
    ensures -1 <= r < |s|
    ensures r == -1 <==> c !in s
    ensures 0 <= r ==> s[r] == c && c !in s[r + 1..]
  {
    if |s| == 0 then -1
    else if s[|s| - 1] == c then |s| - 1
    else
      assert s == s[..|s| - 1] + [s[|s| - 1]];
      LastIndexOf(s[..|s| - 1], c)
  }

  /** `t` occurs at position `i` of `s`, compared ignoring ASCII case. */
  predicate MatchesAt(s: string, t: string, i: nat) {
    i + |t| <= |s| && EqualsIgnoreCase(s[i..i + |t|], t)
  }

  /** String.IndexOf(t, from, StringComparison.OrdinalIgnoreCase): the first position at or
      after `from` where `t` occurs ignoring case, or -1 when there is none. */
  function IndexOfIgnoreCase(s: string, t: string, from: nat): (r: int)
    requires from <= |s|
    ensures r == -1 || (from <= r && MatchesAt(s, t, r))
    ensures r == -1 ==> forall i :: from <= i ==> !MatchesAt(s, t, i)
    ensures r != -1 ==> forall i :: from <= i < r ==> !MatchesAt(s, t, i)
    decreases |s| - from
  {
    if from + |t| > |s| then -1
    else if MatchesAt(s, t, from) then from
    else IndexOfIgnoreCase(s, t, from + 1)
  }

  /** `t` occurs somewhere in `s` ignoring case (IndexOf(..) >= 0 in the program). */
  predicate ContainsIgnoreCase(s: string, t: string) {
    IndexOfIgnoreCase(s, t, 0) >= 0
  }

  /** Containment is exactly the existence of a case-insensitive occurrence. */
  lemma ContainsIgnoreCaseIff(s: string, t: string)
    ensures ContainsIgnoreCase(s, t) <==> exists i: nat :: MatchesAt(s, t, i)
  {
  }

  /** The parts joined back with the separator: the inverse of Split. */
  function Join(parts: seq<string>, c: char): string
    requires |parts| >= 1
  {
    if |parts| == 1 then parts[0]
    else Join(parts[..|parts| - 1], c) + [c] + parts[|parts| - 1]
  }

  /** String.Split(c): every piece between separators, empty pieces included; one more piece
      than there are separators. */
  function Split(s: string, c: char): seq<string>
    decreases |s|
  {
    var j := LastIndexOf(s, c);
    if j < 0 then [s] else Split(s[..j], c) + [s[j + 1..]]
  }

  /** Split yields one more piece than there are separators, and no piece holds one. */
  lemma {:induction false} SplitSpec(s: string, c: char)
    ensures |Split(s, c)| == multiset(s)[c] + 1
    ensures forall k :: 0 <= k < |Split(s, c)| ==> c !in Split(s, c)[k]
    decreases |s|
  {
    var j := LastIndexOf(s, c);
    if j < 0 {
      assert multiset(s)[c] == 0;
    } else {
      SplitSpec(s[..j], c);
      SeparatorCount(s, j, c);
    }
  }

  /** Cutting at a separator whose tail holds no other counts that separator once. */
  lemma SeparatorCount(s: string, j: nat, c: char)
    requires j < |s| && s[j] == c && c !in s[j + 1..]
    ensures multiset(s)[c] == multiset(s[..j])[c] + 1
  {
    assert s == s[..j] + [c] + s[j + 1..];
    assert multiset(s) == multiset(s[..j]) + multiset([c]) + multiset(s[j + 1..]);
  }

  /** Joining the pieces of a split with the separator restores the text. */
  lemma {:induction false} JoinSplit(s: string, c: char)
    ensures Join(Split(s, c), c) == s
    decreases |s|
  {
    var j := LastIndexOf(s, c);
    if j >= 0 {
      var init := Split(s[..j], c);
      assert Split(s, c) == init + [s[j + 1..]];
      assert (init + [s[j + 1..]])[..|init|] == init;
      JoinSplit(s[..j], c);
      assert s == s[..j] + [c] + s[j + 1..];
    }
  }

  /** The last separator of a join is the one in front of the last part. */
  lemma LastIndexOfJoin(p: string, c: char, last: string)
    requires c !in last
    ensures LastIndexOf(p + [c] + last, c) == |p|
  {
    var s := p + [c] + last;
    assert s[|p|] == c;
    assert s[|p| + 1..] == last;
  }

  /** Appending a separator and a separator-free part appends that part to the split. */
  lemma SplitSnoc(p: string, c: char, last: string)
    requires c !in last
    ensures Split(p + [c] + last, c) == Split(p, c) + [last]
  {
    var s := p + [c] + last;
    LastIndexOfJoin(p, c, last);
    assert s[..|p|] == p;
    assert s[|p| + 1..] == last;
  }

  /** Splitting what Join produced from separator-free parts gives the parts back. */
  lemma {:induction false} SplitJoin(parts: seq<string>, c: char)
    requires |parts| >= 1
    requires forall k :: 0 <= k < |parts| ==> c !in parts[k]
    ensures Split(Join(parts, c), c) == parts
    decreases |parts|
  {
    if |parts| == 1 {
      assert LastIndexOf(parts[0], c) == -1;
    } else {
      var init, last := parts[..|parts| - 1], parts[|parts| - 1];
      SplitJoin(init, c);
      SplitSnoc(Join(init, c), c, last);
      calc {
        Split(Join(parts, c), c);
        Split(Join(init, c) + [c] + last, c);
        Split(Join(init, c), c) + [last];
        init + [last];
        parts;
      }
    }
  }

  /** The character of one decimal digit. */
  function DigitChar(d: nat): (r: char)
    requires d < 10
    ensures '0' <= r <= '9' && r as int - '0' as int == d
  {
    ('0' as int + d) as char
  }

  /** A non-empty run of decimal digits. */
  predicate IsDecimal(s: string) {
    |s| > 0 && forall i :: 0 <= i < |s| ==> '0' <= s[i] <= '9'
  }

  /** Int64.ToString() of a non-negative count: decimal digits without leading zeros. */
  function NatToString(n: nat): (r: string)
    ensures IsDecimal(r)
    ensures |r| > 1 ==> r[0] != '0'
    decreases n
  {
    if n < 10 then [DigitChar(n)] else NatToString(n / 10) + [DigitChar(n % 10)]
  }

  /** The number a run of decimal digits denotes. */
  function DecimalValue(s: string): nat
    requires forall i :: 0 <= i < |s| ==> '0' <= s[i] <= '9'
  {
    if |s| == 0 then 0
    else DecimalValue(s[..|s| - 1]) * 10 + (s[|s| - 1] as int - '0' as int)
  }

  /** The rendered count reads back as the same number, so no two counts render alike. */
  lemma {:induction false} NatToStringRoundTrip(n: nat)
    ensures DecimalValue(NatToString(n)) == n
    decreases n
  {
    if n >= 10 {
      var r := NatToString(n);
      NatToStringRoundTrip(n / 10);
      assert r[..|r| - 1] == NatToString(n / 10);
    }
  }
}
