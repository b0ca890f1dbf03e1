/**
 * The Python string operations the date extractor relies on: substring test
 * (`sub in s`), removal of every occurrence of a pattern (`s.replace(p, '')`),
 * splitting on one separator character (`s.split(sep)`), and decimal integers
 * (`int(s)` on plain digit strings, and the zero-padded form index names use).
 */
module Text {
  import opened Results
  import opened Sequences

  /** `p` occurs at the start of `s`. */
  predicate IsPrefix(p: string, s: string) {
    |p| <= |s| && s[..|p|] == p
  }

  /** Python's `sub in s`: `sub` occurs somewhere in `s` (the empty string occurs everywhere). */
  predicate Contains(s: string, sub: string)
    ensures Contains(s, sub) ==> |sub| <= |s|
    ensures sub == [] ==> Contains(s, sub)
    decreases |s|
  {
    IsPrefix(sub, s) || (s != [] && Contains(s[1..], sub))
  }

  /** `sub` occurs in `s` starting at position `i`. */
  predicate OccursAt(s: string, sub: string, i: int) {
    0 <= i <= |s| - |sub| && s[i..i + |sub|] == sub
  }

  /** `Contains` agrees with the positional reading: some window of `s` equals `sub`. */
  lemma {:induction false} ContainsAt(s: string, sub: string)
    ensures Contains(s, sub) <==> exists i :: OccursAt(s, sub, i)
    decreases |s|
  {
    if IsPrefix(sub, s) {
      assert OccursAt(s, sub, 0);
    } else if s == [] {
    } else {
      ContainsAt(s[1..], sub);
      if exists i :: OccursAt(s, sub, i) {
        var i :| OccursAt(s, sub, i);
        assert i != 0;
        assert s[1..][i - 1..i - 1 + |sub|] == s[i..i + |sub|];
        assert OccursAt(s[1..], sub, i - 1);
      }
      if Contains(s[1..], sub) {
        var j :| OccursAt(s[1..], sub, j);
        assert s[j + 1..j + 1 + |sub|] == s[1..][j..j + |sub|];
        assert OccursAt(s, sub, j + 1);
      }
    }
  }

  /** A character of a pattern that occurs in `s` is a character of `s`. */
  lemma {:induction false} ContainsChar(s: string, sub: string, c: char)
    requires Contains(s, sub) && c in sub
    ensures c in s
    decreases |s|
  {
    if IsPrefix(sub, s) {
      var k :| 0 <= k < |sub| && sub[k] == c;
      assert s[k] == c;
    } else {
      ContainsChar(s[1..], sub, c);
    }
  }

  /**
   * Python's `s.replace(p, '')`: scanning left to right, every non-overlapping
   * occurrence of `p` is deleted; the text around the deleted occurrences is not
   * scanned again. An empty pattern leaves `s` unchanged.
   */
  function RemoveAll(s: string, p: string): (r: string)
    ensures |r| <= |s|
    ensures forall c :: c in r ==> c in s
    ensures !Contains(s, p) ==> r == s
    ensures p != [] && Contains(s, p) ==> |r| + |p| <= |s|
    decreases |s|
  {
    if p == [] then s
    else if IsPrefix(p, s) then RemoveAll(s[|p|..], p)
    else if s == [] then []
    else [s[0]] + RemoveAll(s[1..], p)
  }

  /** A leading occurrence of the pattern is removed and the scan goes on after it. */
  lemma RemoveAllLeading(p: string, s: string)
    requires p != []
    ensures RemoveAll(p + s, p) == RemoveAll(s, p)
  {
    assert IsPrefix(p, p + s);
    assert (p + s)[|p|..] == s;
  }

  /**
   * An occurrence of the pattern after other text is removed as well: when the
   * first occurrence of `p` in `a + p + b` starts right after `a`, the text `a`
   * is kept and that occurrence is deleted.
   */
  lemma {:induction false} RemoveAllAfter(a: string, p: string, b: string)
    requires p != []
    requires forall i :: 0 <= i < |a| ==> !OccursAt(a + p + b, p, i)
    ensures RemoveAll(a + p + b, p) == a + RemoveAll(b, p)
    decreases |a|
  {
    var s := a + p + b;
    if a == [] {
      assert s == p + b;
      RemoveAllLeading(p, b);
    } else {
      assert !OccursAt(s, p, 0);
      assert !IsPrefix(p, s);
      assert s[1..] == a[1..] + p + b;
      forall i | 0 <= i < |a[1..]| ensures !OccursAt(a[1..] + p + b, p, i) {
        assert !OccursAt(s, p, i + 1);
        assert s[i + 1..i + 1 + |p|] == s[1..][i..i + |p|];
      }
      RemoveAllAfter(a[1..], p, b);
      HeadTail(a);
      AppendAssociative([a[0]], a[1..], RemoveAll(b, p));
    }
  }

  /** Joins parts with the separator between them; the inverse of `Split`. */
  function Join(parts: seq<string>, sep: char): string {
    if parts == [] then []
    else if |parts| == 1 then parts[0]
    else parts[0] + [sep] + Join(parts[1..], sep)
  }

  /**
   * Python's `s.split(sep)` for a one-character separator: the pieces between
   * separators, empty pieces included, so there is always one piece more than
   * there are separators.
   */
  function Split(s: string, sep: char): (parts: seq<string>)
    ensures |parts| == multiset(s)[sep] + 1
    ensures forall i :: 0 <= i < |parts| ==> sep !in parts[i]
    ensures Join(parts, sep) == s
    decreases |s|
  {
    if s == [] then [[]]
    else
      var rest := Split(s[1..], sep);
      HeadTail(s);
      SplitCount(s[0], s[1..], rest, sep);
      SplitPieces(s[0], rest, sep);
      SplitJoinStep(s[0], s[1..], rest, sep);
      SplitCons(s[0], rest, sep)
  }

  /** The pieces of `[c] + tail` built from the pieces `rest` of `tail`: a separator opens a new piece, any other character extends the first. */
  function SplitCons(c: char, rest: seq<string>, sep: char): seq<string>
    requires rest != []
  {
    if c == sep then [[]] + rest else [[c] + rest[0]] + rest[1..]
  }

  /** One more separator, one more piece. */
  lemma SplitCount(c: char, tail: string, rest: seq<string>, sep: char)
    requires |rest| == multiset(tail)[sep] + 1
    ensures |SplitCons(c, rest, sep)| == multiset([c] + tail)[sep] + 1
  {
    assert multiset([c] + tail) == multiset([c]) + multiset(tail);
  }

  /** No piece holds the separator. */
  lemma SplitPieces(c: char, rest: seq<string>, sep: char)
    requires rest != []
    requires forall i :: 0 <= i < |rest| ==> sep !in rest[i]
    ensures forall i :: 0 <= i < |SplitCons(c, rest, sep)| ==> sep !in SplitCons(c, rest, sep)[i]
  {
  }

  /** The pieces join back to `[c] + tail`. */
  lemma SplitJoinStep(c: char, tail: string, rest: seq<string>, sep: char)
    requires rest != [] && Join(rest, sep) == tail
    ensures Join(SplitCons(c, rest, sep), sep) == [c] + tail
  {
    if c == sep {
      JoinCons([], rest, sep);
    } else {
      JoinExtendFirst(c, rest, sep);
    }
  }

  /** Joining `[p] + rest` puts `p` and a separator before the join of `rest`. */
  lemma JoinCons(p: string, rest: seq<string>, sep: char)
    requires rest != []
    ensures Join([p] + rest, sep) == p + [sep] + Join(rest, sep)
  {
    assert ([p] + rest)[1..] == rest;
  }

  /** Prepending a character to the first part prepends it to the join. */
  lemma JoinExtendFirst(c: char, parts: seq<string>, sep: char)
    requires parts != []
    ensures Join([[c] + parts[0]] + parts[1..], sep) == [c] + Join(parts, sep)
  {
    var first := [c] + parts[0];
    if |parts| == 1 {
      assert [first] + parts[1..] == [first];
    } else {
      JoinCons(first, parts[1..], sep);
      AppendAssociative([c], parts[0] + [sep], Join(parts[1..], sep));
    }
  }

  /** A piece without separators splits into itself. */
  lemma {:induction false} SplitNone(s: string, sep: char)
    requires sep !in s
    ensures Split(s, sep) == [s]
    decreases |s|
  {
    if s != [] {
      SplitNone(s[1..], sep);
      assert [s[0]] + s[1..] == s;
    }
  }

  /** Splitting `a + sep + b`, where `a` holds no separator, gives `a` followed by the pieces of `b`. */
  lemma {:induction false} SplitAfter(a: string, sep: char, b: string)
    requires sep !in a
    ensures Split(a + [sep] + b, sep) == [a] + Split(b, sep)
    decreases |a|
  {
    var s := a + [sep] + b;
    if a == [] {
      assert s[1..] == b;
    } else {
      assert s[1..] == a[1..] + [sep] + b;
      SplitAfter(a[1..], sep, b);
      var rest := [a[1..]] + Split(b, sep);
      assert Split(s, sep) == SplitCons(a[0], rest, sep);
      assert rest[0] == a[1..] && rest[1..] == Split(b, sep);
      HeadTail(a);
    }
  }

  /** `Split` undoes `Join` when no part holds the separator. */
  lemma {:induction false} SplitJoin(parts: seq<string>, sep: char)
    requires parts != []
    requires forall i :: 0 <= i < |parts| ==> sep !in parts[i]
    ensures Split(Join(parts, sep), sep) == parts
    decreases |parts|
  {
    if |parts| == 1 {
      SplitNone(parts[0], sep);
    } else {
      SplitJoin(parts[1..], sep);
      SplitAfter(parts[0], sep, Join(parts[1..], sep));
      assert [parts[0]] + parts[1..] == parts;
    }
  }

  predicate IsDigit(c: char) {
    '0' <= c <= '9'
  }

  /** A non-empty string of ASCII decimal digits. */
  predicate IsDecimal(s: string) {
    s != [] && forall i :: 0 <= i < |s| ==> IsDigit(s[i])
  }

  /** A character that is not a digit does not occur in a decimal string. */
  lemma DecimalWithout(s: string, c: char)
    requires IsDecimal(s) && !IsDigit(c)
    ensures c !in s
  {
    forall i | 0 <= i < |s| ensures s[i] != c {
      assert IsDigit(s[i]);
    }
  }

  function DigitValue(c: char): nat
    requires IsDigit(c)
  {
    c as int - '0' as int
  }

  function DigitChar(k: nat): (c: char)
    requires k < 10
    ensures IsDigit(c) && DigitValue(c) == k
  {
    ('0' as int + k) as char
  }

  /** The number a string of digits denotes in base 10 (leading zeros allowed). */
  function ValueOf(s: string): nat
    requires forall i :: 0 <= i < |s| ==> IsDigit(s[i])
    decreases |s|
  {
    if s == [] then 0 else 10 * ValueOf(s[..|s| - 1]) + DigitValue(s[|s| - 1])
  }

  /**
   * Python's `int(s)` restricted to plain digit strings: the value when `s` is a
   * non-empty string of decimal digits, nothing otherwise.
   */
  function ParseNat(s: string): (r: Option<nat>)
    ensures r.Some? <==> IsDecimal(s)
    ensures r.Some? ==> r.value == ValueOf(s)
  {
    if IsDecimal(s) then Some(ValueOf(s)) else None
  }

  /** The shortest decimal representation of `n`. */
  function Decimal(n: nat): (s: string)
    ensures IsDecimal(s) && ValueOf(s) == n
    decreases n
  {
    if n < 10 then [DigitChar(n)]
    else
      var s := Decimal(n / 10) + [DigitChar(n % 10)];
      assert s[..|s| - 1] == Decimal(n / 10);
      s
  }

  function Zeros(k: nat): (s: string)
    ensures |s| == k && forall i :: 0 <= i < k ==> s[i] == '0'
  {
    seq(k, _ => '0')
  }

  /** Leading zeros do not change the value of a digit string. */
  lemma {:induction false} LeadingZeros(k: nat, s: string)
    requires forall i :: 0 <= i < |s| ==> IsDigit(s[i])
    ensures ValueOf(Zeros(k) + s) == ValueOf(s)
    decreases |s| + k
  {
    var z := Zeros(k) + s;
    if s == [] {
      assert z == Zeros(k);
      if k > 0 {
        assert z[..|z| - 1] == Zeros(k - 1);
        LeadingZeros(k - 1, []);
        assert Zeros(k - 1) + [] == Zeros(k - 1);
      }
    } else {
      assert z[..|z| - 1] == Zeros(k) + s[..|s| - 1];
      LeadingZeros(k, s[..|s| - 1]);
    }
  }

  /** `n` in decimal, padded on the left with zeros to at least `width` digits (Python's `'%0*d'`). */
  function ZeroPad(n: nat, width: nat): (s: string)
    ensures IsDecimal(s) && ValueOf(s) == n && |s| >= width
  {
    var d := Decimal(n);
    if |d| >= width then d
    else
      LeadingZeros(width - |d|, d);
      Zeros(width - |d|) + d
  }
}
