/** The Python `str` operations the log parser is built from, on `seq<char>`:
    `strip()`, `split(sep)`, argument-less `split()`, `replace(old, "")`,
    `startswith`, `endswith` and `sep.join(parts)`. */
module PyStr {

  /** `c.isspace()`: the characters that `strip()` and argument-less
      `split()` treat as whitespace. */
  predicate IsSpace(c: char) {
    var n := c as int;
    || n == 0x20 || 0x09 <= n <= 0x0D || 0x1C <= n <= 0x1F
    || n == 0x85 || n == 0xA0 || n == 0x1680 || 0x2000 <= n <= 0x200A
    || n == 0x2028 || n == 0x2029 || n == 0x202F || n == 0x205F || n == 0x3000
  }

  predicate NoSpace(s: string) {
    forall i :: 0 <= i < |s| ==> !IsSpace(s[i])
  }

  predicate StartsWith(s: string, prefix: string) {
    |prefix| <= |s| && s[..|prefix|] == prefix
  }

  predicate EndsWith(s: string, suffix: string) {
    |suffix| <= |s| && s[|s| - |suffix|..] == suffix
  }

  /** A prefix test compares character by character. */
  lemma StartsWithPointwise(s: string, prefix: string)
    ensures StartsWith(s, prefix) <==> |prefix| <= |s| && forall i :: 0 <= i < |prefix| ==> s[i] == prefix[i]
  {
  }

  /** A suffix test compares the last characters one by one. */
  lemma EndsWithPointwise(s: string, suffix: string)
    ensures EndsWith(s, suffix) <==>
              |suffix| <= |s| && forall i :: 0 <= i < |suffix| ==> s[|s| - |suffix| + i] == suffix[i]
  {
  }

  /** `pat` occurs in `s` starting at position `i`. */
  predicate OccursAt(s: string, pat: string, i: nat) {
    i + |pat| <= |s| && s[i..i + |pat|] == pat
  }

  predicate Occurs(s: string, pat: string) {
    exists i: nat :: i <= |s| && OccursAt(s, pat, i)
  }

  // ---------------------------------------------------------------- strip()

  /** The number of whitespace characters `s` begins with. */
  function LeadingSpace(s: string): (n: nat)
    ensures n <= |s|
    ensures forall i :: 0 <= i < n ==> IsSpace(s[i])
    ensures n < |s| ==> !IsSpace(s[n])
  {
    if s == [] || !IsSpace(s[0]) then 0 else 1 + LeadingSpace(s[1..])
  }

  /** The number of whitespace characters `s` ends with. */
  function TrailingSpace(s: string): (n: nat)
    ensures n <= |s|
    ensures forall i :: |s| - n <= i < |s| ==> IsSpace(s[i])
    ensures n < |s| ==> !IsSpace(s[|s| - n - 1])
  {
    if s == [] || !IsSpace(s[|s| - 1]) then 0 else 1 + TrailingSpace(s[..|s| - 1])
  }

  /** `s.rstrip()`: a prefix of `s` that is followed only by whitespace and
      does not itself end in whitespace. */
  function TrimRight(s: string): (r: string)
    ensures |r| <= |s| && r == s[..|r|]
    ensures forall i :: |r| <= i < |s| ==> IsSpace(s[i])
    ensures r != [] ==> !IsSpace(r[|r| - 1])
  {
    s[..|s| - TrailingSpace(s)]
  }

  /** `s.strip()`: the middle part of `s` left once the whitespace at both
      ends is removed; it neither begins nor ends with whitespace. */
  function Strip(s: string): (r: string)
    ensures LeadingSpace(s) + |r| <= |s|
    ensures r == s[LeadingSpace(s)..LeadingSpace(s) + |r|]
    ensures forall i :: LeadingSpace(s) + |r| <= i < |s| ==> IsSpace(s[i])
    ensures r != [] ==> !IsSpace(r[0]) && !IsSpace(r[|r| - 1])
  {
    TrimRight(s[LeadingSpace(s)..])
  }

  lemma StripUnchanged(s: string)
    requires s != [] && !IsSpace(s[0]) && !IsSpace(s[|s| - 1])
    ensures Strip(s) == s
  {
    assert LeadingSpace(s) == 0;
    assert s[0..] == s;
  }

  /** A text that begins with a non-whitespace character is only trimmed on the right. */
  lemma StripIsTrimRight(s: string)
    requires s != [] && !IsSpace(s[0])
    ensures Strip(s) == TrimRight(s)
  {
    assert LeadingSpace(s) == 0;
    assert s[0..] == s;
  }

  /** `TrimRight` is the only prefix that is followed by whitespace alone
      and is empty or ends in a non-whitespace character. */
  lemma TrimRightUnique(s: string, r: string)
    requires |r| <= |s| && r == s[..|r|]
    requires forall i :: |r| <= i < |s| ==> IsSpace(s[i])
    requires r != [] ==> !IsSpace(r[|r| - 1])
    ensures TrimRight(s) == r
  {
    var t := TrimRight(s);
    assert |t| == |r|;
  }

  /** Trailing whitespace is trimmed from the last part alone when that part
      holds a non-whitespace character. */
  lemma TrimRightConcat(x: string, y: string)
    requires TrimRight(y) != []
    ensures TrimRight(x + y) == x + TrimRight(y)
  {
    var s, r := x + y, x + TrimRight(y);
    assert r == s[..|r|];
    forall i | |r| <= i < |s| ensures IsSpace(s[i]) {
      assert s[i] == y[i - |x|];
    }
    TrimRightUnique(s, r);
  }

  // ------------------------------------------------------ split(sep), join

  /** The position of the first `c` in `s`. */
  function IndexOf(s: string, c: char): (i: nat)
    requires c in s
    ensures i < |s| && s[i] == c
    ensures c !in s[..i]
  {
    if s[0] == c then 0
    else
      var k := IndexOf(s[1..], c);
      assert s[..k + 1] == [s[0]] + s[1..][..k];
      k + 1
  }

  /** `s.split(c)` for a one-character separator: the pieces between the
      occurrences of `c`, empty pieces included. */
  function SplitOn(s: string, c: char): (parts: seq<string>)
    ensures |parts| >= 1
    ensures forall k :: 0 <= k < |parts| ==> c !in parts[k]
    decreases |s|
  {
    if c !in s then [s]
    else
      var i := IndexOf(s, c);
      [s[..i]] + SplitOn(s[i + 1..], c)
  }

  /** A character the text lacks is in none of its pieces. */
  lemma {:induction false} SplitOnAvoids(s: string, c: char, x: char)
    requires x !in s
    ensures forall k :: 0 <= k < |SplitOn(s, c)| ==> x !in SplitOn(s, c)[k]
    decreases |s|
  {
    if c in s {
      var i := IndexOf(s, c);
      assert forall y :: y in s[..i] ==> y in s;
      assert forall y :: y in s[i + 1..] ==> y in s;
      SplitOnAvoids(s[i + 1..], c, x);
    }
  }

  /** `sep.join(parts)`. */
  function JoinWith(parts: seq<string>, sep: string): string {
    if |parts| == 0 then ""
    else if |parts| == 1 then parts[0]
    else parts[0] + sep + JoinWith(parts[1..], sep)
  }

  /** Joining the pieces of a split with the separator gives back the text. */
  lemma {:induction false} JoinSplitOn(s: string, c: char)
    ensures JoinWith(SplitOn(s, c), [c]) == s
    decreases |s|
  {
    if c in s {
      var i := IndexOf(s, c);
      var rest := SplitOn(s[i + 1..], c);
      JoinSplitOn(s[i + 1..], c);
      assert ([s[..i]] + rest)[1..] == rest;
      assert s == s[..i] + [c] + s[i + 1..];
    }
  }

  /** Splitting a join of pieces that do not contain the separator gives
      back the pieces. */
  lemma {:induction false} SplitOnJoin(parts: seq<string>, c: char)
    requires |parts| >= 1
    requires forall k :: 0 <= k < |parts| ==> c !in parts[k]
    ensures SplitOn(JoinWith(parts, [c]), c) == parts
    decreases |parts|
  {
    if |parts| > 1 {
      var p := parts[0];
      var tail := JoinWith(parts[1..], [c]);
      var s := p + [c] + tail;
      assert JoinWith(parts, [c]) == s;
      assert s[|p|] == c;
      var i := IndexOf(s, c);
      assert s[..i] == p;
      assert s[i + 1..] == tail;
      SplitOnJoin(parts[1..], c);
      assert parts == [p] + parts[1..];
    }
  }

  lemma {:induction false} JoinWithAppend(p: seq<string>, q: seq<string>, sep: string)
    requires |p| >= 1 && |q| >= 1
    ensures JoinWith(p + q, sep) == JoinWith(p, sep) + sep + JoinWith(q, sep)
    decreases |p|
  {
    if |p| == 1 {
      assert (p + q)[1..] == q;
    } else {
      assert (p + q)[1..] == p[1..] + q;
      JoinWithAppend(p[1..], q, sep);
    }
  }

  /** Splitting at one occurrence of the separator splits the pieces there. */
  lemma SplitOnConcat(a: string, b: string, c: char)
    ensures SplitOn(a + [c] + b, c) == SplitOn(a, c) + SplitOn(b, c)
  {
    var pa, pb := SplitOn(a, c), SplitOn(b, c);
    JoinSplitOn(a, c);
    JoinSplitOn(b, c);
    JoinWithAppend(pa, pb, [c]);
    SplitOnJoin(pa + pb, c);
  }

  /** A join contains a character only if the separator or a piece does. */
  lemma {:induction false} JoinWithAvoids(parts: seq<string>, sep: string, c: char)
    requires c !in sep
    requires forall k :: 0 <= k < |parts| ==> c !in parts[k]
    ensures c !in JoinWith(parts, sep)
    decreases |parts|
  {
    if |parts| > 1 {
      JoinWithAvoids(parts[1..], sep, c);
    }
  }

  /** A join whose first piece is non-empty begins with that piece. */
  lemma JoinWithFirst(parts: seq<string>, sep: string)
    requires |parts| >= 1 && parts[0] != []
    ensures JoinWith(parts, sep) != [] && JoinWith(parts, sep)[0] == parts[0][0]
  {
  }

  /** A join whose last piece is non-empty ends with that piece's last character. */
  lemma {:induction false} JoinWithLast(parts: seq<string>, sep: string)
    requires |parts| >= 1 && parts[|parts| - 1] != []
    ensures var j := JoinWith(parts, sep); var w := parts[|parts| - 1];
            j != [] && j[|j| - 1] == w[|w| - 1]
    decreases |parts|
  {
    if |parts| > 1 {
      JoinWithLast(parts[1..], sep);
    }
  }

  // ---------------------------------------------------------------- split()

  /** The length of the word `s` begins with. */
  function WordLength(s: string): (n: nat)
    requires s != [] && !IsSpace(s[0])
    ensures 1 <= n <= |s|
    ensures NoSpace(s[..n])
    ensures n < |s| ==> IsSpace(s[n])
  {
    if |s| == 1 || IsSpace(s[1]) then 1
    else
      var k := WordLength(s[1..]);
      assert s[..k + 1] == [s[0]] + s[1..][..k];
      k + 1
  }

  /** `s.split()`: the maximal runs of non-whitespace characters, in order;
      leading, trailing and repeated whitespace yields no empty words. */
  function Words(s: string): (ws: seq<string>)
    ensures forall k :: 0 <= k < |ws| ==> ws[k] != [] && NoSpace(ws[k])
    decreases |s|
  {
    if s == [] then []
    else if IsSpace(s[0]) then Words(s[1..])
    else
      var n := WordLength(s);
      [s[..n]] + Words(s[n..])
  }

  lemma {:induction false} WordLengthExact(s: string, n: nat)
    requires s != [] && !IsSpace(s[0])
    requires 1 <= n <= |s| && NoSpace(s[..n]) && (n < |s| ==> IsSpace(s[n]))
    ensures WordLength(s) == n
    decreases n
  {
    if n > 1 {
      assert s[1] == s[..n][1];
      assert s[1..][..n - 1] == s[..n][1..];
      WordLengthExact(s[1..], n - 1);
    }
  }

  lemma WordsOfWord(w: string)
    requires w != [] && NoSpace(w)
    ensures Words(w) == [w]
  {
    assert w[..|w|] == w;
    WordLengthExact(w, |w|);
    assert w[|w|..] == [];
  }

  lemma WordsOfWordThen(w: string, tail: string)
    requires w != [] && NoSpace(w)
    ensures Words(w + " " + tail) == [w] + Words(tail)
  {
    var s := w + " " + tail;
    assert s[..|w|] == w;
    WordLengthExact(s, |w|);
    assert s[|w|..] == " " + tail;
    assert (" " + tail)[1..] == tail;
  }

  /** Text without any non-whitespace character has no words. */
  lemma WordsOfNothing()
    ensures Words([]) == []
  {
  }

  /** A text of whitespace only has no words. */
  lemma {:induction false} WordsOfSpaces(w: string)
    requires forall i :: 0 <= i < |w| ==> IsSpace(w[i])
    ensures Words(w) == []
    decreases |w|
  {
    if w == [] {
      WordsOfNothing();
    } else {
      WordsSplitAtSpace([], w[0], w[1..]);
      assert [] + [w[0]] + w[1..] == w;
      WordsOfSpaces(w[1..]);
      WordsOfNothing();
    }
  }

  /** Argument-less `split()` cuts at every whitespace character: whatever
      whitespace character `c` is, the words of `a + [c] + b` are the words
      of `a` followed by the words of `b`. With `WordsOfWord` and
      `WordsOfNothing` this fixes the words of every text, runs of
      whitespace, tabs and a trailing carriage return included. */
  lemma {:induction false} WordsSplitAtSpace(a: string, c: char, b: string)
    requires IsSpace(c)
    ensures Words(a + [c] + b) == Words(a) + Words(b)
    decreases |a|
  {
    var s := a + [c] + b;
    if a == [] {
      assert s[1..] == b;
    } else if IsSpace(a[0]) {
      assert s[1..] == a[1..] + [c] + b;
      WordsSplitAtSpace(a[1..], c, b);
    } else {
      var m := WordLength(a);
      WordBeforeSpace(a, c, b);
      assert s[..m] == a[..m];
      assert s[m..] == a[m..] + [c] + b;
      WordsSplitAtSpace(a[m..], c, b);
    }
  }

  /** A word of `a` ends at the latest where the whitespace after `a` begins. */
  lemma WordBeforeSpace(a: string, c: char, b: string)
    requires a != [] && !IsSpace(a[0]) && IsSpace(c)
    ensures WordLength(a + [c] + b) == WordLength(a)
  {
    var s, m := a + [c] + b, WordLength(a);
    assert s[..m] == a[..m];
    assert s[m] == if m < |a| then a[m] else c;
    WordLengthExact(s, m);
  }

  /** Words written out separated by single spaces split back into the same
      words. */
  lemma {:induction false} WordsOfJoin(ws: seq<string>)
    requires forall k :: 0 <= k < |ws| ==> ws[k] != [] && NoSpace(ws[k])
    ensures Words(JoinWith(ws, " ")) == ws
    decreases |ws|
  {
    if |ws| == 1 {
      WordsOfWord(ws[0]);
    } else if |ws| > 1 {
      WordsOfWordThen(ws[0], JoinWith(ws[1..], " "));
      WordsOfJoin(ws[1..]);
      assert ws == [ws[0]] + ws[1..];
    }
  }

  // ------------------------------------------------------ replace(pat, "")

  /** `s.replace(pat, "")`: the occurrences of `pat` found scanning from the
      left, without overlap, are deleted. */
  function RemoveAll(s: string, pat: string): (r: string)
    requires pat != []
    ensures |r| <= |s|
    ensures forall x :: x in r ==> x in s
    decreases |s|
  {
    if s == [] then []
    else if StartsWith(s, pat) then
      assert forall x :: x in s[|pat|..] ==> x in s;
      RemoveAll(s[|pat|..], pat)
    else
      assert forall x :: x in s[1..] ==> x in s;
      [s[0]] + RemoveAll(s[1..], pat)
  }

  /** Deleting a pattern that does not occur changes nothing. */
  lemma {:induction false} RemoveAllAbsent(s: string, pat: string)
    requires pat != []
    requires !Occurs(s, pat)
    ensures RemoveAll(s, pat) == s
    decreases |s|
  {
    if s != [] {
      assert !OccursAt(s, pat, 0);
      if |pat| <= |s| {
        assert s[0..|pat|] == s[..|pat|];
      }
      forall i: nat ensures !OccursAt(s[1..], pat, i) {
        assert !OccursAt(s, pat, i + 1);
        if i + |pat| <= |s[1..]| {
          assert s[1..][i..i + |pat|] == s[i + 1..i + 1 + |pat|];
        }
      }
      RemoveAllAbsent(s[1..], pat);
    }
  }

  /** Deleting a pattern from a text that begins with it drops that
      occurrence first. */
  lemma RemoveAllLeading(pat: string, rest: string)
    requires pat != []
    ensures RemoveAll(pat + rest, pat) == RemoveAll(rest, pat)
  {
    assert (pat + rest)[..|pat|] == pat;
    assert (pat + rest)[|pat|..] == rest;
  }

  /** The leftmost occurrence is deleted wherever it stands: the text before
      it is kept, and the deletion goes on after it. */
  lemma {:induction false} RemoveAllAt(a: string, pat: string, b: string)
    requires pat != []
    requires forall i :: 0 <= i < |a| ==> !OccursAt(a + pat + b, pat, i)
    ensures RemoveAll(a + pat + b, pat) == a + RemoveAll(b, pat)
    decreases |a|
  {
    if a == [] {
      assert a + pat + b == pat + b;
      RemoveAllLeading(pat, b);
    } else {
      var s := a + pat + b;
      assert !OccursAt(s, pat, 0);
      assert s[0..|pat|] == s[..|pat|];
      assert !StartsWith(s, pat);
      assert s[1..] == a[1..] + pat + b;
      forall i | 0 <= i < |a[1..]| ensures !OccursAt(a[1..] + pat + b, pat, i) {
        assert !OccursAt(s, pat, i + 1);
        assert s[1..][i..i + |pat|] == s[i + 1..i + 1 + |pat|];
      }
      RemoveAllAt(a[1..], pat, b);
      assert RemoveAll(s, pat) == [a[0]] + RemoveAll(s[1..], pat);
      assert [a[0]] + a[1..] == a;
    }
  }

  /** A header line with text before the pattern keeps that text. */
  lemma RemoveAllExample()
    ensures RemoveAll("a#Fields: b", "#Fields: ") == "ab"
  {
    var pat := "#Fields: ";
    forall i | 0 <= i < |"a"| ensures !OccursAt("a" + pat + "b", pat, i) {
      assert ("a" + pat + "b")[0] != pat[0];
    }
    RemoveAllAt("a", pat, "b");
    assert "a" + pat + "b" == "a#Fields: b";
    RemoveAllAbsent("b", pat);
  }
}
