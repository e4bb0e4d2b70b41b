/** The comma-separated ID lists: splitting and trimming, Go's decimal printer and parser with int64 bounds, and
    the loops that put them together. */
module IdLists {
  import opened Basics

  const MIN_INT64 := -0x8000_0000_0000_0000
  const MAX_INT64 := 0x7fff_ffff_ffff_ffff

  predicate Int64(n: int) {
    MIN_INT64 <= n <= MAX_INT64
  }

  // ---------- Strings ----------

  // unicode.IsSpace
  predicate IsSpace(c: char) {
    || c in {'\t', '\n', '\U{000B}', '\U{000C}', '\r', ' ', '\U{0085}', '\U{00A0}', '\U{1680}'}
    || '\U{2000}' <= c <= '\U{200A}'
    || c in {'\U{2028}', '\U{2029}', '\U{202F}', '\U{205F}', '\U{3000}'}
  }

  function TrimLeft(s: string): string {
    if s != [] && IsSpace(s[0]) then TrimLeft(s[1..]) else s
  }

  function TrimRight(s: string): string {
    if s != [] && IsSpace(s[|s| - 1]) then TrimRight(s[..|s| - 1]) else s
  }

  function TrimSpace(s: string): string {
    TrimRight(TrimLeft(s))
  }

  // strings.Split: at the separator's occurrences from the left, or between all characters if it is empty.
  function Split(s: string, sep: string): (parts: seq<string>)
    ensures sep != "" ==> parts != []
  {
    if sep == "" then
      if s == [] then [] else [[s[0]]] + Split(s[1..], sep)
    else if s == [] then [[]]
    else if sep <= s then [[]] + Split(s[|sep|..], sep)
    else
      var rest := Split(s[1..], sep);
      [[s[0]] + rest[0]] + rest[1..]
  }

  function Join(parts: seq<string>, sep: string): string {
    if parts == [] then []
    else if |parts| == 1 then parts[0]
    else parts[0] + sep + Join(parts[1..], sep)
  }

  /** Joining what was split gives the string back, for every separator. */
  lemma {:induction false} JoinSplit(s: string, sep: string)
    ensures Join(Split(s, sep), sep) == s
  {
    if s != [] {
      if sep == "" {
        JoinSplit(s[1..], sep);
        JoinCons([s[0]], Split(s[1..], sep), sep);
      } else if sep <= s {
        JoinSplit(s[|sep|..], sep);
        JoinCons([], Split(s[|sep|..], sep), sep);
      } else {
        var rest := Split(s[1..], sep);
        JoinSplit(s[1..], sep);
        assert ([[s[0]] + rest[0]] + rest[1..])[1..] == rest[1..];
      }
    }
  }

  lemma JoinCons(p: string, parts: seq<string>, sep: string)
    ensures Join([p] + parts, sep) == if parts == [] then p else p + sep + Join(parts, sep)
  {
    assert ([p] + parts)[1..] == parts;
  }

  // No occurrence of the separator begins inside p, when this comes after it.
  ghost predicate Clear(p: string, sep: string, after: string) {
    forall k :: 0 <= k < |p| ==> !(sep <= (p + after)[k..])
  }

  // One character further.
  lemma SplitStep(s: string, sep: string)
    requires sep != "" && s != [] && !(sep <= s)
    ensures var rest := Split(s[1..], sep);
            Split(s, sep)[0] == [s[0]] + rest[0] && Split(s, sep)[1..] == rest[1..]
  {
  }

  lemma SameTail(c: char, p: string, q: string)
    ensures [c] + p == [c] + q <==> p == q
  {
    assert ([c] + p)[1..] == p && ([c] + q)[1..] == q;
  }

  lemma {:induction false} SplitPart(p: string, sep: string)
    requires sep != ""
    ensures Split(p, sep) == [p] <==> Clear(p, sep, "")
  {
    if p != [] {
      ClearTail(p, sep, "");
      assert p + "" == p && p == [p[0]] + p[1..];
      if sep <= p {
        assert Split(p, sep)[0] == [];
      } else {
        SplitPart(p[1..], sep);
        SplitStep(p, sep);
        var parts, rest := Split(p, sep), Split(p[1..], sep);
        SameTail(p[0], rest[0], p[1..]);
        assert parts == [parts[0]] + parts[1..] && rest == [rest[0]] + rest[1..];
      }
    }
  }

  lemma ClearTail(p: string, sep: string, after: string)
    requires p != []
    ensures Clear(p, sep, after) <==> !(sep <= p + after) && Clear(p[1..], sep, after)
  {
    assert (p + after)[0..] == p + after;
    assert forall k :: 0 <= k < |p| - 1 ==> (p[1..] + after)[k..] == (p + after)[k + 1..];
    if Clear(p[1..], sep, after) && !(sep <= p + after) {
      forall k | 0 <= k < |p| ensures !(sep <= (p + after)[k..]) {
        assert k > 0 ==> (p[1..] + after)[k - 1..] == (p + after)[k..];
      }
    }
  }

  // The first part is p exactly if no separator begins inside it; then the rest is split on its own.
  lemma {:induction false} SplitFirst(p: string, rest: string, sep: string)
    requires sep != ""
    ensures var parts := Split(p + sep + rest, sep);
            if Clear(p, sep, sep) then parts == [p] + Split(rest, sep) else parts[0] != p
  {
    var s := p + sep + rest;
    if p == [] {
      assert s[..|sep|] == sep && s[|sep|..] == rest;
    } else {
      PrefixOfMore(p + sep, rest, sep);
      ClearTail(p, sep, sep);
      if sep <= s {
        assert Split(s, sep)[0] == [];
      } else {
        assert s[1..] == p[1..] + sep + rest && p == [p[0]] + p[1..] && s[0] == p[0];
        SplitFirst(p[1..], rest, sep);
        SplitStep(s, sep);
        var parts, tail := Split(s, sep), Split(s[1..], sep);
        SameTail(p[0], tail[0], p[1..]);
        assert parts == [parts[0]] + parts[1..] && ([p[1..]] + Split(rest, sep))[1..] == Split(rest, sep);
      }
    }
  }

  lemma PrefixOfMore(s: string, more: string, sep: string)
    requires |sep| <= |s|
    ensures sep <= s + more <==> sep <= s
  {
    assert (s + more)[..|sep|] == s[..|sep|];
  }

  // Each part but the last is clear up to and into its separator, and the last has none.
  ghost predicate Splittable(parts: seq<string>, sep: string)
    requires parts != []
  {
    && (forall i :: 0 <= i < |parts| - 1 ==> Clear(parts[i], sep, sep))
    && Clear(parts[|parts| - 1], sep, "")
  }

  /** Splitting what was joined gives the parts back if and only if no separator begins inside a part: for one
      character, if no part contains it. */
  lemma {:induction false} SplitJoin(parts: seq<string>, sep: string)
    requires parts != [] && sep != ""
    ensures Split(Join(parts, sep), sep) == parts <==> Splittable(parts, sep)
  {
    if |parts| == 1 {
      assert parts == [parts[0]];
      SplitPart(parts[0], sep);
    } else {
      var rest := parts[1..];
      SplitJoin(rest, sep);
      SplitFirst(parts[0], Join(rest, sep), sep);
      assert parts == [parts[0]] + rest;
      SplittableRest(parts, sep);
      assert ([parts[0]] + Split(Join(rest, sep), sep))[1..] == Split(Join(rest, sep), sep);
    }
  }

  lemma SplittableRest(parts: seq<string>, sep: string)
    requires |parts| > 1
    ensures Splittable(parts, sep) <==> Clear(parts[0], sep, sep) && Splittable(parts[1..], sep)
  {
    var rest := parts[1..];
    assert forall i :: 0 <= i < |rest| ==> rest[i] == parts[i + 1];
    if Splittable(rest, sep) && Clear(parts[0], sep, sep) {
      forall i | 0 <= i < |parts| - 1 ensures Clear(parts[i], sep, sep) {
        assert i > 0 ==> rest[i - 1] == parts[i];
      }
    }
  }

  lemma OneCharacter(parts: seq<string>, c: char)
    requires parts != []
    ensures Splittable(parts, [c]) <==> forall i :: 0 <= i < |parts| ==> c !in parts[i]
  {
    forall i | 0 <= i < |parts|
      ensures (Clear(parts[i], [c], [c]) <==> c !in parts[i]) && (Clear(parts[i], [c], "") <==> c !in parts[i])
    {
      ClearOfOne(parts[i], c, [c]);
      ClearOfOne(parts[i], c, "");
    }
  }

  lemma ClearOfOne(p: string, c: char, after: string)
    ensures Clear(p, [c], after) <==> c !in p
  {
    forall k | 0 <= k < |p| ensures [c] <= (p + after)[k..] <==> p[k] == c {
      assert (p + after)[k..][0] == p[k];
    }
    if !Clear(p, [c], after) {
      var k :| 0 <= k < |p| && [c] <= (p + after)[k..];
      assert p[k] == c;
    }
  }

  // ---------- Numbers ----------

  predicate IsDigit(c: char) {
    '0' <= c <= '9'
  }

  function Digits(n: nat): (s: string)
    ensures s != [] && forall i :: 0 <= i < |s| ==> IsDigit(s[i])
  {
    (if n < 10 then [] else Digits(n / 10)) + [('0' as int + n % 10) as char]
  }

  // strconv.FormatInt(n, 10)
  function FormatInt(n: int): string {
    if n < 0 then "-" + Digits(-n) else Digits(n)
  }

  function Value(s: string): Option<nat> {
    if s == [] then Some(0)
    else
      var before := Value(s[..|s| - 1]);
      var c := s[|s| - 1];
      if before.None? || !IsDigit(c) then None else Some(before.value * 10 + (c as int - '0' as int))
  }

  // strconv.ParseInt(s, 10, 64): one optional sign, at least one digit, and the int64 range.
  function ParseInt(s: string): (n: Option<int>)
    ensures n.Some? ==> Int64(n.value)
  {
    if s == [] then None
    else
      var signed := s[0] == '+' || s[0] == '-';
      var digits := if signed then s[1..] else s;
      if digits == [] then None
      else
        match Value(digits)
        case None => None
        case Some(v) =>
          var n: int := if s[0] == '-' then -(v as int) else v;
          if Int64(n) then Some(n) else None
  }

  lemma {:induction false} ValueDigits(n: nat)
    ensures Value(Digits(n)) == Some(n)
  {
    if n >= 10 {
      ValueDigits(n / 10);
    }
    ValueSnoc(if n < 10 then [] else Digits(n / 10), n / 10, ('0' as int + n % 10) as char);
  }

  lemma ValueSnoc(s: string, high: nat, c: char)
    requires IsDigit(c) && Value(s) == Some(high)
    ensures Value(s + [c]) == Some(high * 10 + (c as int - '0' as int))
  {
    assert (s + [c])[..|s|] == s;
  }

  ghost predicate AllDigits(s: string) {
    forall c :: c in s ==> IsDigit(c)
  }

  /** A value is read exactly from digits. */
  lemma {:induction false} ValueExactly(s: string)
    ensures Value(s).Some? <==> AllDigits(s)
  {
    if s != "" {
      var n := |s| - 1;
      ValueExactly(s[..n]);
      assert s == s[..n] + [s[n]];
    }
  }

  // Without a leading zero they are the ones printed for it.
  lemma {:induction false} DigitsBack(s: string)
    requires Value(s).Some? && s != "" && s[0] != '0'
    ensures Value(s).value > 0 && Digits(Value(s).value) == s
  {
    var n := |s| - 1;
    if n > 0 {
      DigitsBack(s[..n]);
      ValueSnoc(s[..n], Value(s[..n]).value, s[n]);
    }
    assert s == s[..n] + [s[n]];
  }

  /** The parser reads back what the printer writes, for every int64, both extremes included. */
  lemma ParseFormat(n: int)
    requires Int64(n)
    ensures ParseInt(FormatInt(n)) == Some(n)
  {
    if n < 0 {
      NegativeBack(n);
    } else {
      PlainBack(n);
    }
  }

  lemma NegativeBack(n: int)
    requires n < 0 && Int64(n)
    ensures ParseInt("-" + Digits(-n)) == Some(n)
  {
    ValueDigits(-n);
    ParseNegative(Digits(-n), n);
  }

  lemma ParseNegative(digits: string, n: int)
    requires digits != [] && n < 0 && Value(digits) == Some(-n) && Int64(n)
    ensures ParseInt("-" + digits) == Some(n)
  {
    assert ("-" + digits)[1..] == digits;
  }

  lemma PlainBack(n: nat)
    requires Int64(n)
    ensures ParseInt(Digits(n)) == Some(n)
  {
    ValueDigits(n);
    ParsePlain(Digits(n), n);
  }

  lemma ParsePlain(digits: string, n: nat)
    requires digits != [] && IsDigit(digits[0]) && Value(digits) == Some(n) && Int64(n)
    ensures ParseInt(digits) == Some(n)
  {
  }

  // At most a minus before the digits, and no leading zero except in "0" itself.
  predicate Plain(s: string) {
    s == "0" || (s != "" && s[0] != '+' && (if s[0] == '-' then |s| > 1 && s[1] != '0' else s[0] != '0'))
  }

  /** What parses to a number is that number's printed form exactly if it is plain. */
  lemma FormatBack(s: string)
    requires ParseInt(s).Some?
    ensures FormatInt(ParseInt(s).value) == s <==> Plain(s)
  {
    if s[0] == '-' {
      NegativeForm(s);
    } else {
      NaturalForm(s);
    }
  }

  lemma NegativeForm(s: string)
    requires ParseInt(s).Some? && s[0] == '-'
    ensures FormatInt(ParseInt(s).value) == s <==> s[1] != '0'
  {
    var digits := s[1..];
    assert s == "-" + digits;
    if s[1] != '0' {
      DigitsBack(digits);
    } else {
      Unlike(s, 1, ParseInt(s).value);
    }
  }

  lemma NaturalForm(s: string)
    requires ParseInt(s).Some? && s[0] != '-'
    ensures FormatInt(ParseInt(s).value) == s <==> s == "0" || (s[0] != '+' && s[0] != '0')
  {
    var v := ParseInt(s).value;
    if s == "0" {
      ParsePlain(s, 0);
    } else if s[0] == '0' {
      Unlike(s, 0, v);
    } else if s[0] == '+' {
      Signs(v);
    } else {
      DigitsBack(s);
    }
  }

  // No number but 0 is printed with a leading 0, and 0 only as "0".
  lemma Unlike(s: string, k: nat, n: int)
    requires k < |s| && s[k] == '0' && (if k == 1 then s[0] == '-' else k == 0 && s != "0")
    ensures FormatInt(n) != s
  {
    LeadingDigit(if n < 0 then -n else n);
    Signs(n);
    assert n < 0 ==> FormatInt(n)[1] == Digits(-n)[0];
  }

  lemma {:induction false} LeadingDigit(n: nat)
    ensures Digits(n)[0] == '0' <==> n == 0
  {
    if n >= 10 {
      LeadingDigit(n / 10);
      assert Digits(n)[0] == Digits(n / 10)[0];
    }
  }

  /** Two different numbers never print alike. */
  lemma FormatInjective(m: int, n: int)
    requires FormatInt(m) == FormatInt(n)
    ensures m == n
  {
    Signs(m);
    Signs(n);
    if m >= 0 {
      ValueDigits(m);
      ValueDigits(n);
    } else {
      assert FormatInt(m)[1..] == Digits(-m) && FormatInt(n)[1..] == Digits(-n);
      ValueDigits(-m);
      ValueDigits(-n);
    }
  }

  lemma Signs(n: int)
    ensures FormatInt(n) != [] && (FormatInt(n)[0] == '-' <==> n < 0)
  {
    assert n >= 0 ==> IsDigit(Digits(n)[0]);
  }

  // ---------- Lists ----------

  function Trimmed(parts: seq<string>): seq<string> {
    if parts == [] then []
    else
      var p := TrimSpace(parts[|parts| - 1]);
      Trimmed(parts[..|parts| - 1]) + if p != "" then [p] else []
  }

  function Printed(ids: seq<int>): (strs: seq<string>)
    ensures |strs| == |ids| && forall i :: 0 <= i < |ids| ==> strs[i] == FormatInt(ids[i])
  {
    seq(|ids|, i requires 0 <= i < |ids| => FormatInt(ids[i]))
  }

  function Parsed(parts: seq<string>): (ids: seq<int>)
    ensures forall i :: 0 <= i < |ids| ==> Int64(ids[i])
  {
    if parts == [] then []
    else
      var n := ParseInt(parts[|parts| - 1]);
      Parsed(parts[..|parts| - 1]) + if n.Some? then [n.value] else []
  }

  function Print(ids: seq<int>): string {
    Join(Printed(ids), ",")
  }

  function Parse(s: string): seq<int> {
    if s == "" then [] else Parsed(Trimmed(Split(s, ",")))
  }

  lemma NotSpace(s: string)
    requires s != [] && forall i :: 0 <= i < |s| ==> !IsSpace(s[i])
    ensures TrimSpace(s) == s
  {
  }

  lemma FormatPlain(n: int)
    ensures FormatInt(n) != []
    ensures forall i :: 0 <= i < |FormatInt(n)| ==> !IsSpace(FormatInt(n)[i]) && FormatInt(n)[i] != ','
  {
    var d := Digits(if n < 0 then -n else n);
    assert forall i :: 0 <= i < |d| ==> IsDigit(d[i]);
    assert forall i :: 0 <= i < |FormatInt(n)| ==> FormatInt(n)[i] == '-' || IsDigit(FormatInt(n)[i]);
  }

  lemma TrimmedSnoc(parts: seq<string>, p: string)
    ensures Trimmed(parts + [p]) == Trimmed(parts) + if TrimSpace(p) != "" then [TrimSpace(p)] else []
  {
    assert (parts + [p])[..|parts|] == parts;
  }

  lemma ParsedSnoc(parts: seq<string>, p: string)
    ensures Parsed(parts + [p]) == Parsed(parts) + if ParseInt(p).Some? then [ParseInt(p).value] else []
  {
    assert (parts + [p])[..|parts|] == parts;
  }

  ghost predicate AllSpace(s: string) {
    forall c :: c in s ==> IsSpace(c)
  }

  // Neither end is a space.
  predicate Trim(s: string) {
    s != "" ==> !IsSpace(s[0]) && !IsSpace(s[|s| - 1])
  }

  lemma {:induction false} TrimLeftIs(l: string, s: string)
    requires AllSpace(l) && (s != "" ==> !IsSpace(s[0]))
    ensures TrimLeft(l + s) == s
  {
    if l == "" {
      assert l + s == s;
    } else {
      assert l[0] in l && (l + s)[1..] == l[1..] + s;
      TrimLeftIs(l[1..], s);
    }
  }

  lemma {:induction false} TrimRightIs(s: string, r: string)
    requires AllSpace(r) && (s != "" ==> !IsSpace(s[|s| - 1]))
    ensures TrimRight(s + r) == s
  {
    if r == "" {
      assert s + r == s;
    } else {
      assert r[|r| - 1] in r && (s + r)[..|s + r| - 1] == s + r[..|r| - 1];
      TrimRightIs(s, r[..|r| - 1]);
    }
  }

  /** Trimming takes exactly the spaces off both ends: whatever surrounds a string without outer spaces goes. */
  lemma TrimIs(l: string, s: string, r: string)
    requires AllSpace(l) && AllSpace(r) && Trim(s)
    ensures TrimSpace(l + s + r) == s
  {
    if s == "" {
      assert l + s + r == (l + r) + "";
      TrimLeftIs(l + r, "");
    } else {
      assert l + s + r == l + (s + r);
      TrimLeftIs(l, s + r);
      TrimRightIs(s, r);
    }
  }

  /** What stands before and after an element of a list does not matter to it: empty parts are dropped, and the others
      trimmed, part by part. */
  lemma {:induction false} TrimmedByPart(a: seq<string>, b: seq<string>)
    ensures Trimmed(a + b) == Trimmed(a) + Trimmed(b)
    decreases |b|
  {
    if b == [] {
      assert a + b == a;
    } else {
      var n := |b| - 1;
      TrimmedByPart(a, b[..n]);
      assert a + b == (a + b[..n]) + [b[n]] && b == b[..n] + [b[n]];
      TrimmedSnoc(a + b[..n], b[n]);
      TrimmedSnoc(b[..n], b[n]);
    }
  }

  // And what does not parse is dropped part by part.
  lemma {:induction false} ParsedByPart(a: seq<string>, b: seq<string>)
    ensures Parsed(a + b) == Parsed(a) + Parsed(b)
    decreases |b|
  {
    if b == [] {
      assert a + b == a;
    } else {
      var n := |b| - 1;
      ParsedByPart(a, b[..n]);
      assert a + b == (a + b[..n]) + [b[n]] && b == b[..n] + [b[n]];
      ParsedSnoc(a + b[..n], b[n]);
      ParsedSnoc(b[..n], b[n]);
    }
  }

  lemma OnePart(p: string)
    ensures Trimmed([p]) == if TrimSpace(p) != "" then [TrimSpace(p)] else []
    ensures Parsed([p]) == if ParseInt(p).Some? then [ParseInt(p).value] else []
  {
    TrimmedSnoc([], p);
    ParsedSnoc([], p);
  }

  lemma {:induction false} TrimmedTo(parts: seq<string>, strs: seq<string>)
    requires |parts| == |strs| && forall i :: 0 <= i < |strs| ==> strs[i] != "" && TrimSpace(parts[i]) == strs[i]
    ensures Trimmed(parts) == strs
  {
    if strs != [] {
      var n := |strs| - 1;
      TrimmedTo(parts[..n], strs[..n]);
      assert strs == strs[..n] + [strs[n]];
    }
  }

  lemma {:induction false} ParsedBack(strs: seq<string>, ids: seq<int>)
    requires |strs| == |ids| && forall i :: 0 <= i < |strs| ==> ParseInt(strs[i]) == Some(ids[i])
    ensures Parsed(strs) == ids
  {
    if strs != [] {
      var n := |strs| - 1;
      ParsedBack(strs[..n], ids[..n]);
      assert ids == ids[..n] + [ids[n]];
    }
  }

  /** Parsing a printed list gives the list back, for every list of int64 values. */
  lemma RoundTrip(ids: seq<int>)
    requires forall i :: 0 <= i < |ids| ==> Int64(ids[i])
    ensures Parse(Print(ids)) == ids
  {
    if ids != [] {
      forall i | 0 <= i < |ids| ensures ',' !in Printed(ids)[i] {
        FormatPlain(ids[i]);
      }
      OneCharacter(Printed(ids), ',');
      SplitJoin(Printed(ids), ",");
      assert Print(ids) != "" by {
        FormatPlain(ids[0]);
      }
      forall i | 0 <= i < |ids|
        ensures Printed(ids)[i] != "" && TrimSpace(Printed(ids)[i]) == Printed(ids)[i]
        ensures ParseInt(Printed(ids)[i]) == Some(ids[i])
      {
        FormatPlain(ids[i]);
        NotSpace(FormatInt(ids[i]));
        ParseFormat(ids[i]);
      }
      TrimmedTo(Printed(ids), Printed(ids));
      ParsedBack(Printed(ids), ids);
    }
  }

  // These numbers, each between two runs of spaces.
  function Spaced(ids: seq<int>, left: seq<string>, right: seq<string>): (parts: seq<string>)
    requires |left| == |right| == |ids|
    ensures |parts| == |ids| && forall i :: 0 <= i < |ids| ==> parts[i] == left[i] + FormatInt(ids[i]) + right[i]
  {
    seq(|ids|, i requires 0 <= i < |ids| => left[i] + FormatInt(ids[i]) + right[i])
  }

  lemma SpacedTrims(ids: seq<int>, left: seq<string>, right: seq<string>)
    requires |left| == |right| == |ids|
    requires forall i :: 0 <= i < |ids| ==> AllSpace(left[i]) && AllSpace(right[i])
    ensures Trimmed(Spaced(ids, left, right)) == Printed(ids)
  {
    forall i | 0 <= i < |ids|
      ensures Printed(ids)[i] != "" && TrimSpace(Spaced(ids, left, right)[i]) == Printed(ids)[i]
    {
      FormatPlain(ids[i]);
      TrimIs(left[i], FormatInt(ids[i]), right[i]);
    }
    TrimmedTo(Spaced(ids, left, right), Printed(ids));
  }

  /** A list with spaces around its elements parses to the same numbers. */
  lemma ParseSpaced(ids: seq<int>, left: seq<string>, right: seq<string>)
    requires ids != [] && |left| == |right| == |ids| && forall i :: 0 <= i < |ids| ==> Int64(ids[i])
    requires forall i :: 0 <= i < |ids| ==> AllSpace(left[i]) && AllSpace(right[i])
    ensures Parse(Join(Spaced(ids, left, right), ",")) == ids
  {
    var parts := Spaced(ids, left, right);
    forall i | 0 <= i < |ids| ensures ',' !in parts[i] && parts[i] != "" && ParseInt(Printed(ids)[i]) == Some(ids[i]) {
      FormatPlain(ids[i]);
      ParseFormat(ids[i]);
    }
    OneCharacter(parts, ',');
    SplitJoin(parts, ",");
    assert Join(parts, ",") != "";
    SpacedTrims(ids, left, right);
    ParsedBack(Printed(ids), ids);
  }

  /** Printing what was parsed is a normal form: doing it twice changes nothing, on every string. */
  lemma PrintParseIdempotent(s: string)
    ensures Print(Parse(Print(Parse(s)))) == Print(Parse(s))
  {
    RoundTrip(Parse(s));
  }

  function Positives(ids: seq<int>): seq<int> {
    if ids == [] then []
    else Positives(ids[..|ids| - 1]) + if ids[|ids| - 1] > 0 then [ids[|ids| - 1]] else []
  }

  /** Every number is kept or dropped on its own, and kept exactly if it is positive. */
  lemma {:induction false} PositivesByPart(a: seq<int>, b: seq<int>)
    ensures Positives(a + b) == Positives(a) + Positives(b)
    ensures |b| == 1 ==> Positives(b) == if b[0] > 0 then b else []
    decreases |b|
  {
    if b == [] {
      assert a + b == a;
    } else {
      var n := |b| - 1;
      PositivesByPart(a, b[..n]);
      assert a + b == (a + b[..n]) + [b[n]] && b == b[..n] + [b[n]];
      PositivesSnoc(a + b[..n], b[n]);
      PositivesSnoc(b[..n], b[n]);
    }
  }

  // ---------- The loops ----------

  method SplitAndTrim(s: string, sep: string) returns (result: seq<string>)
    ensures result == Trimmed(Split(s, sep))
  {
    var parts := Split(s, sep);
    result := [];
    for i := 0 to |parts|
      invariant result == Trimmed(parts[..i])
    {
      assert parts[..i + 1][..i] == parts[..i];
      var p := TrimSpace(parts[i]);
      if p != "" {
        result := result + [p];
      }
    }
    assert parts[..|parts|] == parts;
  }

  method Int64SliceToString(ids: seq<int>) returns (s: string)
    ensures s == Print(ids)
  {
    var strs := [];
    for i := 0 to |ids|
      invariant strs == Printed(ids[..i])
    {
      strs := strs + [FormatInt(ids[i])];
    }
    assert ids[..|ids|] == ids;
    s := Join(strs, ",");
  }

  method StringToInt64Slice(s: string) returns (result: seq<int>)
    ensures result == Parse(s)
  {
    if s == "" {
      return [];
    }
    var parts := SplitAndTrim(s, ",");
    result := [];
    for i := 0 to |parts|
      invariant result == Parsed(parts[..i])
    {
      assert parts[..i + 1][..i] == parts[..i];
      var n := ParseInt(parts[i]);
      if n.Some? {
        result := result + [n.value];
      }
    }
    assert parts[..|parts|] == parts;
  }

  lemma {:induction false} PositivesSnoc(ids: seq<int>, n: int)
    ensures Positives(ids + [n]) == Positives(ids) + if n > 0 then [n] else []
  {
    assert (ids + [n])[..|ids|] == ids;
  }

  ghost function Kept(parts: seq<string>): seq<int> {
    Positives(Parsed(Trimmed(parts)))
  }

  // What one element of the list contributes.
  function PositiveIn(part: string): seq<int> {
    var n := ParseInt(TrimSpace(part));
    if TrimSpace(part) != "" && n.Some? && n.value > 0 then [n.value] else []
  }

  lemma PositivesStep(parts: seq<string>, part: string)
    ensures Kept(parts + [part]) == Kept(parts) + PositiveIn(part)
  {
    var before, p := Trimmed(parts), TrimSpace(part);
    TrimmedSnoc(parts, part);
    if p == "" {
      assert before + [] == before;
    } else {
      ParsedSnoc(before, p);
      if ParseInt(p).Some? {
        PositivesSnoc(Parsed(before), ParseInt(p).value);
      } else {
        assert Parsed(before) + [] == Parsed(before);
      }
    }
  }

  /** parseIDList is exactly the positive IDs of StringToInt64Slice, in order. */
  method ParseIDList(s: string) returns (ids: seq<int>)
    ensures ids == Positives(Parse(s))
  {
    ids := KeepPositive(Split(s, ","));
    NothingInNothing();
  }

  lemma NothingInNothing()
    ensures Parsed(Trimmed(Split("", ","))) == []
  {
    assert Trimmed([""]) == [];
  }

  // Its loop over the parts.
  method KeepPositive(parts: seq<string>) returns (ids: seq<int>)
    ensures ids == Kept(parts)
  {
    ids := [];
    for i := 0 to |parts|
      invariant ids == Kept(parts[..i])
    {
      PositivesStep(parts[..i], parts[i]);
      assert parts[..i + 1] == parts[..i] + [parts[i]];
      var id := ParseId(parts[i]);
      if id.None? || id.value <= 0 {
        continue;
      }
      ids := ids + [id.value];
    }
    assert parts[..|parts|] == parts;
  }

  // An empty part is skipped, and so is one that does not parse.
  method ParseId(part: string) returns (id: Option<int>)
    ensures PositiveIn(part) == if id.Some? && id.value > 0 then [id.value] else []
  {
    var p := TrimSpace(part);
    if p == "" {
      return None;
    }
    return ParseInt(p);
  }
}
