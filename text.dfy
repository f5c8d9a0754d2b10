/**
 * String operations shared by the three parts of the model: the splits, trims, searches and
 * case mappings that JavaScript's `String.prototype` and Python's `str` perform, over `seq<char>`.
 */
module Text {

  /** A set of characters, given by its membership test. */
  type CharClass = char -> bool

  /** No character of `s` belongs to `cls`. */
  predicate NoneIn(s: string, cls: CharClass) {
    forall i :: 0 <= i < |s| ==> !cls(s[i])
  }

  /** Every character of `s` belongs to `cls`. */
  predicate AllIn(s: string, cls: CharClass) {
    forall i :: 0 <= i < |s| ==> cls(s[i])
  }

  /** The length of the longest prefix of `s` that has no character of `cls`. */
  function RunLength(s: string, cls: CharClass): (n: nat)
    ensures n <= |s|
    ensures NoneIn(s[..n], cls)
    ensures n < |s| ==> cls(s[n])
  {
    if s == [] || cls(s[0]) then 0 else 1 + RunLength(s[1..], cls)
  }

  /** A prefix of `m` characters outside `cls` followed by one in it has run length `m`. */
  lemma {:induction false} RunLengthExact(s: string, cls: CharClass, m: nat)
    requires m < |s| && cls(s[m]) && NoneIn(s[..m], cls)
    ensures RunLength(s, cls) == m
  {
    if m > 0 {
      assert !cls(s[..m][0]);
      assert s[1..][..m - 1] == s[..m][1..];
      RunLengthExact(s[1..], cls, m - 1);
    }
  }

  /** `s` with every character of `cls` removed. */
  function Without(s: string, cls: CharClass): (r: string)
    ensures |r| <= |s|
    ensures NoneIn(r, cls)
  {
    if s == [] then [] else (if cls(s[0]) then [] else [s[0]]) + Without(s[1..], cls)
  }

  lemma {:induction false} WithoutAppend(a: string, b: string, cls: CharClass)
    ensures Without(a + b, cls) == Without(a, cls) + Without(b, cls)
  {
    if a != [] {
      var head := if cls(a[0]) then [] else [a[0]];
      assert (a + b)[0] == a[0] && (a + b)[1..] == a[1..] + b;
      WithoutAppend(a[1..], b, cls);
      calc {
        Without(a + b, cls);
        head + Without(a[1..] + b, cls);
        head + (Without(a[1..], cls) + Without(b, cls));
        (head + Without(a[1..], cls)) + Without(b, cls);
      }
    } else {
      assert a + b == b;
    }
  }

  lemma {:induction false} WithoutNoneIn(s: string, cls: CharClass)
    requires NoneIn(s, cls)
    ensures Without(s, cls) == s
  {
    if s != [] {
      WithoutNoneIn(s[1..], cls);
    }
  }

  /** The concatenation of a sequence of strings. */
  function Concat(parts: seq<string>): string {
    if parts == [] then [] else parts[0] + Concat(parts[1..])
  }

  /**
   * The maximal non-empty runs of `s` that contain no character of `cls`, in order. This is
   * what a split on runs of separators followed by dropping the empty parts yields
   * (JavaScript's `s.split(/[..]+/).filter(Boolean)`, Python's `s.split()`).
   */
  function Fields(s: string, cls: CharClass): (r: seq<string>)
    ensures forall k :: 0 <= k < |r| ==> r[k] != [] && NoneIn(r[k], cls)
    ensures r == [] <==> AllIn(s, cls)
    ensures s != [] && NoneIn(s, cls) ==> r == [s]
    decreases |s|
  {
    if s == [] then []
    else if cls(s[0]) then Fields(s[1..], cls)
    else
      var n := RunLength(s, cls);
      assert NoneIn(s, cls) ==> n == |s| && s[..n] == s && s[n..] == [];
      [s[..n]] + Fields(s[n..], cls)
  }

  /**
   * A separator ends a field: the fields of `a`, a separator and `b` are those of `a` followed by
   * those of `b`. With the single-run case above, this pins the fields down as the maximal runs.
   */
  lemma {:induction false} FieldsAcross(a: string, c: char, b: string, cls: CharClass)
    requires cls(c)
    ensures Fields(a + [c] + b, cls) == Fields(a, cls) + Fields(b, cls)
    decreases |a|
  {
    var s := a + [c] + b;
    if a == [] {
      assert s == [c] + b && s[1..] == b;
    } else if cls(a[0]) {
      assert s[0] == a[0] && s[1..] == a[1..] + [c] + b;
      FieldsAcross(a[1..], c, b, cls);
    } else {
      var m := RunLength(a, cls);
      assert s[..m] == a[..m] && s[m] == (a + [c])[m];
      RunLengthExact(s, cls, m);
      if m == |a| {
        assert s[..m] == a && s[m..] == [c] + b && ([c] + b)[1..] == b;
        assert a[m..] == [];
      } else {
        assert s[m..] == a[m..] + [c] + b;
        FieldsAcross(a[m..], c, b, cls);
      }
    }
  }

  /** Gluing the fields back together gives the input with its separators removed. */
  lemma {:induction false} FieldsConcat(s: string, cls: CharClass)
    ensures Concat(Fields(s, cls)) == Without(s, cls)
    decreases |s|
  {
    if s == [] {
    } else if cls(s[0]) {
      FieldsConcat(s[1..], cls);
    } else {
      var n := RunLength(s, cls);
      FieldsConcat(s[n..], cls);
      assert s == s[..n] + s[n..];
      WithoutAppend(s[..n], s[n..], cls);
      WithoutNoneIn(s[..n], cls);
      assert Concat([s[..n]] + Fields(s[n..], cls)) == s[..n] + Concat(Fields(s[n..], cls));
    }
  }

  /** The first index of `c` in `s`, or `|s|` when `c` does not occur. */
  function IndexOf(s: string, c: char): (i: nat)
    ensures i <= |s|
    ensures i < |s| ==> s[i] == c
    ensures forall j :: 0 <= j < i ==> s[j] != c
  {
    if s == [] || s[0] == c then 0 else 1 + IndexOf(s[1..], c)
  }

  /** Split at every occurrence of `c` (JavaScript's `s.split(c)`, Python's `s.split(c)`). */
  function Split(s: string, c: char): (r: seq<string>)
    ensures |r| >= 1 && r[0] == s[..IndexOf(s, c)]
    ensures forall k :: 0 <= k < |r| ==> c !in r[k]
    ensures |r| == 1 <==> c !in s
    decreases |s|
  {
    var i := IndexOf(s, c);
    if i == |s| then
      assert s[..i] == s;
      [s]
    else
      assert s[i] == c;
      [s[..i]] + Split(s[i + 1..], c)
  }

  /** A character that occurs in `s` is found: its first index is inside `s`. */
  lemma IndexOfFound(s: string, c: char)
    requires c in s
    ensures IndexOf(s, c) < |s|
  {
    var j :| 0 <= j < |s| && s[j] == c;
    assert IndexOf(s, c) <= j;
  }

  /** When `c` occurs, the second part is what lies between its first and its second occurrence. */
  lemma SplitSecond(s: string, c: char)
    requires IndexOf(s, c) < |s|
    ensures var i := IndexOf(s, c);
            var u := s[i + 1..];
            && |Split(s, c)| >= 2
            && Split(s, c)[0] == s[..i]
            && Split(s, c)[1] == u[..IndexOf(u, c)]
  {
    SplitAtFirst(s, c);
    var i := IndexOf(s, c);
    var rest := Split(s[i + 1..], c);
    assert Split(s, c)[1] == rest[0];
  }

  /** When `c` occurs, the split is the part before its first occurrence and then the split of the rest. */
  lemma SplitAtFirst(s: string, c: char)
    requires IndexOf(s, c) < |s|
    ensures var i := IndexOf(s, c);
            Split(s, c) == [s[..i]] + Split(s[i + 1..], c)
  {
  }

  /** The parts joined with `sep` between neighbours (`parts.join(sep)`). */
  function Join(parts: seq<string>, sep: string): string {
    if parts == [] then []
    else if |parts| == 1 then parts[0]
    else parts[0] + sep + Join(parts[1..], sep)
  }

  /** Splitting at `c` and joining with `c` gives back the input. */
  lemma {:induction false} SplitJoin(s: string, c: char)
    ensures Join(Split(s, c), [c]) == s
    decreases |s|
  {
    var i := IndexOf(s, c);
    if i < |s| {
      var t := s[i + 1..];
      Around(s, i);
      assert Split(s, c) == [s[..i]] + Split(t, c);
      SplitJoin(t, c);
      JoinCons(s[..i], Split(t, c), [c]);
    } else {
      assert Split(s, c) == [s];
    }
  }

  /** A string is what precedes index `i`, the character there, and what follows. */
  lemma Around(s: string, i: nat)
    requires i < |s|
    ensures s == s[..i] + [s[i]] + s[i + 1..]
  {
  }

  /** Joining a part in front of a non-empty list puts the separator after it. */
  lemma JoinCons(x: string, rest: seq<string>, sep: string)
    requires rest != []
    ensures Join([x] + rest, sep) == x + sep + Join(rest, sep)
  {
    assert ([x] + rest)[1..] == rest;
  }

  /** Joining a non-empty prefix and appending one more part. */
  lemma {:induction false} JoinSnoc(parts: seq<string>, x: string, sep: string)
    requires parts != []
    ensures Join(parts + [x], sep) == Join(parts, sep) + sep + x
  {
    if |parts| == 1 {
      assert parts + [x] == [parts[0], x];
    } else {
      assert (parts + [x])[1..] == parts[1..] + [x];
      JoinSnoc(parts[1..], x, sep);
    }
  }

  /** Joining splits off the last part. */
  lemma JoinLast(parts: seq<string>, sep: string)
    requires |parts| >= 2
    ensures Join(parts, sep) == Join(parts[..|parts| - 1], sep) + sep + parts[|parts| - 1]
  {
    assert parts == parts[..|parts| - 1] + [parts[|parts| - 1]];
    JoinSnoc(parts[..|parts| - 1], parts[|parts| - 1], sep);
  }

  /** `s` without the characters of `cls` at its start. */
  function TrimStart(s: string, cls: CharClass): string {
    if s != [] && cls(s[0]) then TrimStart(s[1..], cls) else s
  }

  /** Trimming the start drops a prefix of `cls` characters and stops at one outside `cls`. */
  lemma {:induction false} TrimStartShape(s: string, cls: CharClass)
    ensures var r := TrimStart(s, cls);
            && |r| <= |s| && r == s[|s| - |r|..]
            && AllIn(s[..|s| - |r|], cls)
            && (r != [] ==> !cls(r[0]))
  {
    if s != [] && cls(s[0]) {
      TrimStartShape(s[1..], cls);
      var r := TrimStart(s[1..], cls);
      assert s[1..][..|s| - 1 - |r|] == s[1..|s| - |r|];
    }
  }

  /** `s` without the characters of `cls` at its end. */
  function TrimEnd(s: string, cls: CharClass): string {
    if s != [] && cls(s[|s| - 1]) then TrimEnd(s[..|s| - 1], cls) else s
  }

  /** Trimming the end drops a suffix of `cls` characters and stops at one outside `cls`. */
  lemma {:induction false} TrimEndShape(s: string, cls: CharClass)
    ensures var r := TrimEnd(s, cls);
            && |r| <= |s| && r == s[..|r|]
            && AllIn(s[|r|..], cls)
            && (r != [] ==> !cls(r[|r| - 1]))
  {
    if s != [] && cls(s[|s| - 1]) {
      var t := s[..|s| - 1];
      TrimEndShape(t, cls);
      var r := TrimEnd(t, cls);
      assert t[..|r|] == s[..|r|];
      assert forall i :: |r| <= i < |s| - 1 ==> s[i] == t[i];
    }
  }

  /** `s` without the characters of `cls` at either end (`s.trim()`, `s.strip()`). */
  function Trim(s: string, cls: CharClass): string {
    TrimEnd(TrimStart(s, cls), cls)
  }

  /** The trimmed string is a piece of the input that neither starts nor ends with a `cls` character. */
  lemma TrimShape(s: string, cls: CharClass)
    ensures var r := Trim(s, cls);
            && (r != [] ==> !cls(r[0]) && !cls(r[|r| - 1]))
            && exists i :: OccursAt(s, r, i)
  {
    var t := TrimStart(s, cls);
    var r := TrimEnd(t, cls);
    TrimStartShape(s, cls);
    TrimEndShape(t, cls);
    assert OccursAt(s, r, |s| - |t|);
  }

  /** Trimming a string that has no character of `cls` at its ends leaves it unchanged. */
  lemma TrimTrimmed(s: string, cls: CharClass)
    requires s != [] ==> !cls(s[0]) && !cls(s[|s| - 1])
    ensures Trim(s, cls) == s
  {
  }

  /** `p` is a prefix of `s` (`s.startsWith(p)`). */
  predicate StartsWith(s: string, p: string) {
    |p| <= |s| && s[..|p|] == p
  }

  /** `sub` occurs in `s` starting at index `i`. */
  predicate OccursAt(s: string, sub: string, i: int) {
    0 <= i <= |s| - |sub| && s[i..i + |sub|] == sub
  }

  /** `sub` occurs somewhere in `s` (`s.includes(sub)`, Python's `sub in s`). */
  function Contains(s: string, sub: string): (b: bool)
    ensures b <==> exists i :: OccursAt(s, sub, i)
    decreases |s|
  {
    if StartsWith(s, sub) then
      assert OccursAt(s, sub, 0);
      true
    else if s == [] then
      false
    else
      var b := Contains(s[1..], sub);
      assert forall i :: OccursAt(s[1..], sub, i) <==> OccursAt(s, sub, i + 1);
      assert !OccursAt(s, sub, 0);
      assert (exists i :: OccursAt(s, sub, i)) ==> exists i :: OccursAt(s[1..], sub, i) by {
        if i :| OccursAt(s, sub, i) {
          assert i >= 1 && OccursAt(s[1..], sub, i - 1);
        }
      }
      b
  }

  /**
   * Every non-overlapping occurrence of `pattern` replaced by `replacement`, scanning from the left
   * (Python's `s.replace(old, new)`).
   */
  function ReplaceAll(s: string, pattern: string, replacement: string): (r: string)
    requires pattern != []
    ensures !Contains(s, pattern) ==> r == s
    decreases |s|
  {
    if StartsWith(s, pattern) then
      assert OccursAt(s, pattern, 0);
      replacement + ReplaceAll(s[|pattern|..], pattern, replacement)
    else if s == [] then
      []
    else
      var rest := ReplaceAll(s[1..], pattern, replacement);
      assert !Contains(s, pattern) ==> !Contains(s[1..], pattern) by {
        if Contains(s[1..], pattern) {
          var i :| OccursAt(s[1..], pattern, i);
          assert OccursAt(s, pattern, i + 1);
        }
      }
      [s[0]] + rest
  }

  /** A string that starts with the pattern has it replaced there. */
  lemma ReplaceAllPrefix(s: string, pattern: string, replacement: string)
    requires pattern != [] && StartsWith(s, pattern)
    ensures ReplaceAll(s, pattern, replacement)
            == replacement + ReplaceAll(s[|pattern|..], pattern, replacement)
  {
  }

  /** `s` with every `from` character replaced by `to` (JavaScript's `s.replace(/x/g, y)` for one character). */
  function ReplaceChar(s: string, from: char, to: char): (r: string)
    ensures |r| == |s|
    ensures forall i :: 0 <= i < |s| ==> r[i] == if s[i] == from then to else s[i]
  {
    seq(|s|, i requires 0 <= i < |s| => if s[i] == from then to else s[i])
  }

  /** ASCII upper-case letter. */
  predicate IsUpperAscii(c: char) { 'A' <= c <= 'Z' }

  /** ASCII lower-case letter. */
  predicate IsLowerAscii(c: char) { 'a' <= c <= 'z' }

  /** ASCII letter, what `/[A-Z]/i` accepts. */
  predicate IsAsciiLetter(c: char) { IsUpperAscii(c) || IsLowerAscii(c) }

  /** ASCII decimal digit. */
  predicate IsDigit(c: char) { '0' <= c <= '9' }

  /** `c` lower-cased; only ASCII letters change. */
  function LowerChar(c: char): (r: char)
    ensures !IsUpperAscii(r)
    ensures IsUpperAscii(c) ==> r as int == c as int + 32
    ensures !IsUpperAscii(c) ==> r == c
  {
    if IsUpperAscii(c) then (c as int + 32) as char else c
  }

  /** `c` upper-cased; only ASCII letters change. */
  function UpperChar(c: char): (r: char)
    ensures !IsLowerAscii(r)
    ensures IsLowerAscii(c) ==> r as int == c as int - 32
    ensures !IsLowerAscii(c) ==> r == c
  {
    if IsLowerAscii(c) then (c as int - 32) as char else c
  }

  /** Upper- and lower-casing undo each other on letters of the other case. */
  lemma CaseRoundTrip(c: char)
    ensures LowerChar(UpperChar(LowerChar(c))) == LowerChar(c)
    ensures UpperChar(LowerChar(UpperChar(c))) == UpperChar(c)
  {
  }

  /** `s.toLowerCase()` on ASCII letters. */
  function Lower(s: string): (r: string)
    ensures |r| == |s|
    ensures forall i :: 0 <= i < |s| ==> r[i] == LowerChar(s[i])
  {
    seq(|s|, i requires 0 <= i < |s| => LowerChar(s[i]))
  }

  /** The decimal digits of `n`, most significant first, without leading zeros. */
  function Decimal(n: nat): (r: string)
    ensures r != []
    ensures forall i :: 0 <= i < |r| ==> IsDigit(r[i])
  {
    if n < 10 then [('0' as int + n) as char]
    else Decimal(n / 10) + [('0' as int + n % 10) as char]
  }

  /** The value of a string of decimal digits. */
  function DecimalValue(s: string): nat
    requires forall i :: 0 <= i < |s| ==> IsDigit(s[i])
  {
    if s == [] then 0
    else
      assert IsDigit(s[|s| - 1]);
      DecimalValue(s[..|s| - 1]) * 10 + (s[|s| - 1] as int - '0' as int)
  }

  /** Reading back the digits of `n` gives `n`. */
  lemma {:induction false} DecimalRoundTrip(n: nat)
    ensures DecimalValue(Decimal(n)) == n
  {
    if n >= 10 {
      DecimalRoundTrip(n / 10);
      var d := Decimal(n / 10) + [('0' as int + n % 10) as char];
      assert d[..|d| - 1] == Decimal(n / 10);
    }
  }

  /** Different numbers have different decimal spellings. */
  lemma DecimalInjective(m: nat, n: nat)
    requires Decimal(m) == Decimal(n)
    ensures m == n
  {
    DecimalRoundTrip(m);
    DecimalRoundTrip(n);
  }
}
