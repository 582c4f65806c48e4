/**
  The string operations the program borrows from JavaScript's String.prototype:
  `trim`, `split('\n')`, the field count of `split(/\s+/)`, and `join`.
  Strings are sequences of Unicode scalar values.
 */
module Text {

  /** ECMAScript WhiteSpace and LineTerminator code points: the set that both
      `String.prototype.trim` and the regular-expression class `\s` use. */
  predicate IsWhitespace(c: char) {
    || c == '\t' || c == '\n' || c == '\U{B}' || c == '\U{C}' || c == '\r'
    || c == ' ' || c == '\U{A0}' || c == '\U{1680}'
    || ('\U{2000}' <= c <= '\U{200A}')
    || c == '\U{2028}' || c == '\U{2029}' || c == '\U{202F}' || c == '\U{205F}'
    || c == '\U{3000}' || c == '\U{FEFF}'
  }

  predicate AllWhitespace(s: string) {
    forall k :: 0 <= k < |s| ==> IsWhitespace(s[k])
  }

  predicate NoWhitespace(s: string) {
    forall k :: 0 <= k < |s| ==> !IsWhitespace(s[k])
  }

  /** True when `s` has nothing to trim at either end. */
  predicate Trimmed(s: string) {
    s == [] || (!IsWhitespace(s[0]) && !IsWhitespace(s[|s| - 1]))
  }

  /** The first position at or after `i` that does not hold whitespace (or `|s|`). */
  function SkipWhitespace(s: string, i: nat): (k: nat)
    requires i <= |s|
    ensures i <= k <= |s|
    ensures forall j :: i <= j < k ==> IsWhitespace(s[j])
    ensures k < |s| ==> !IsWhitespace(s[k])
    decreases |s| - i
  {
    if i < |s| && IsWhitespace(s[i]) then SkipWhitespace(s, i + 1) else i
  }

  /** The end of `s[lo..j]` once the whitespace at its end is dropped: the least `k`
      in [lo, j] such that `s[k..j]` is all whitespace. */
  function BackOverWhitespace(s: string, lo: nat, j: nat): (k: nat)
    requires lo <= j <= |s|
    ensures lo <= k <= j
    ensures forall m :: k <= m < j ==> IsWhitespace(s[m])
    ensures lo < k ==> !IsWhitespace(s[k - 1])
    decreases j - lo
  {
    if lo < j && IsWhitespace(s[j - 1]) then BackOverWhitespace(s, lo, j - 1) else j
  }

  /** `String.prototype.trim`: `s` with the whitespace at both ends removed. */
  function Trim(s: string): (r: string)
    ensures Trimmed(r)
  {
    var i := SkipWhitespace(s, 0);
    var j := BackOverWhitespace(s, i, |s|);
    s[i..j]
  }

  /** What trimming removes: the result is a slice of `s` with only whitespace in front of
      it and only whitespace after it. */
  lemma TrimSlice(s: string)
    ensures var r := Trim(s);
            exists i :: 0 <= i <= |s| - |r| && s[i..i + |r|] == r
                        && AllWhitespace(s[..i]) && AllWhitespace(s[i + |r|..])
  {
    var i := SkipWhitespace(s, 0);
    var j := BackOverWhitespace(s, i, |s|);
    assert AllWhitespace(s[..i]) by {
      forall m | 0 <= m < i ensures IsWhitespace(s[..i][m]) { assert s[..i][m] == s[m]; }
    }
    assert AllWhitespace(s[j..]) by {
      forall m | 0 <= m < |s| - j ensures IsWhitespace(s[j..][m]) { assert s[j..][m] == s[j + m]; }
    }
    assert s[i..i + (j - i)] == Trim(s);
  }

  /** Trimming whitespace padding gives back the padded text: together with Trim's own
      contract this pins its result down uniquely. */
  lemma TrimPadded(pre: string, t: string, post: string)
    requires AllWhitespace(pre) && AllWhitespace(post) && Trimmed(t)
    ensures Trim(pre + t + post) == t
  {
    var s := pre + t + post;
    assert forall m :: 0 <= m < |pre| ==> s[m] == pre[m];
    assert forall m :: 0 <= m < |t| ==> s[|pre| + m] == t[m];
    assert forall m :: 0 <= m < |post| ==> s[|pre| + |t| + m] == post[m];
    var i := SkipWhitespace(s, 0);
    if t == [] {
      assert i == |s|;
      assert BackOverWhitespace(s, i, |s|) == |s|;
    } else {
      assert !IsWhitespace(s[|pre|]);
      assert i == |pre|;
      assert !IsWhitespace(s[|pre| + |t| - 1]);
      var j := BackOverWhitespace(s, i, |s|);
      assert j == |pre| + |t|;
      assert s[i..j] == t;
    }
  }

  /** Text without whitespace is left as it is by trimming. */
  lemma TrimNoWhitespace(s: string)
    requires NoWhitespace(s)
    ensures Trim(s) == s
  {
    TrimPadded([], s, []);
    assert [] + s + [] == s;
  }

  /** The number of maximal runs of whitespace in `s[i..]`. */
  function WhitespaceRuns(s: string, i: nat): (n: nat)
    requires i <= |s|
    ensures n == 0 <==> forall j :: i <= j < |s| ==> !IsWhitespace(s[j])
    decreases |s| - i
  {
    if i == |s| then 0
    else if IsWhitespace(s[i]) then 1 + WhitespaceRuns(s, SkipWhitespace(s, i))
    else WhitespaceRuns(s, i + 1)
  }

  /** `s.split(/\s+/).length`: every maximal whitespace run separates two fields
      (possibly empty ones at the ends), so there is one field more than there are runs. */
  function FieldCount(s: string): (n: nat)
    ensures n >= 1
    ensures n == 1 <==> NoWhitespace(s)
  {
    WhitespaceRuns(s, 0) + 1
  }

  /** `parts.join([sep])`: the parts with one separator between neighbours. */
  function Join(parts: seq<string>, sep: char): string
  {
    if |parts| == 0 then ""
    else if |parts| == 1 then parts[0]
    else parts[0] + [sep] + Join(parts[1..], sep)
  }

  /** Joining one more part appends a separator and that part. */
  lemma {:induction false} JoinSnoc(parts: seq<string>, last: string, sep: char)
    requires |parts| >= 1
    ensures Join(parts + [last], sep) == Join(parts, sep) + [sep] + last
    decreases |parts|
  {
    if |parts| > 1 {
      assert (parts + [last])[1..] == parts[1..] + [last];
      JoinSnoc(parts[1..], last, sep);
    }
  }

  /** `s.split(sep)` for a one-character separator: the pieces between separators, in order.
      There is always at least one piece. */
  function Split(s: string, sep: char): (parts: seq<string>)
    ensures |parts| >= 1
    decreases |s|
  {
    if |s| == 0 then [""]
    else
      var rest := Split(s[1..], sep);
      if s[0] == sep then [""] + rest else [[s[0]] + rest[0]] + rest[1..]
  }

  /** No piece of a split holds the separator. */
  lemma {:induction false} SplitPieces(s: string, sep: char)
    ensures forall i :: 0 <= i < |Split(s, sep)| ==> sep !in Split(s, sep)[i]
    decreases |s|
  {
    if |s| > 0 {
      SplitPieces(s[1..], sep);
      var rest := Split(s[1..], sep);
      if s[0] != sep {
        assert forall i :: 1 <= i < |Split(s, sep)| ==> Split(s, sep)[i] == rest[i];
        assert Split(s, sep)[0] == [s[0]] + rest[0];
      }
    }
  }

  /** Joining the pieces of a split with the separator restores the text. */
  lemma {:induction false} JoinSplit(s: string, sep: char)
    ensures Join(Split(s, sep), sep) == s
    decreases |s|
  {
    if |s| > 0 {
      JoinSplit(s[1..], sep);
      var rest := Split(s[1..], sep);
      var r := Split(s, sep);
      assert s == [s[0]] + s[1..];
      if s[0] == sep {
        assert r == [""] + rest && r[1..] == rest;
        assert Join(r, sep) == "" + [sep] + Join(rest, sep);
      } else {
        assert r == [[s[0]] + rest[0]] + rest[1..] && r[1..] == rest[1..];
        if |rest| == 1 {
          assert Join(r, sep) == [s[0]] + rest[0];
        } else {
          assert Join(rest, sep) == rest[0] + [sep] + Join(rest[1..], sep);
          assert Join(r, sep) == [s[0]] + rest[0] + [sep] + Join(rest[1..], sep);
        }
      }
    }
  }

  /** Splitting text that begins with a separator-free piece `p` glues `p` onto the first piece. */
  lemma {:induction false} SplitAfterPiece(p: string, tail: string, sep: char)
    requires sep !in p
    ensures Split(p + tail, sep) == [p + Split(tail, sep)[0]] + Split(tail, sep)[1..]
    decreases |p|
  {
    var t := Split(tail, sep);
    if p == [] {
      assert p + tail == tail;
      assert p + t[0] == t[0];
      assert [p + t[0]] + t[1..] == t;
    } else {
      var s := p + tail;
      assert s[0] == p[0] != sep;
      assert s[1..] == p[1..] + tail;
      assert sep !in p[1..];
      SplitAfterPiece(p[1..], tail, sep);
      var rest := Split(s[1..], sep);
      assert rest[0] == p[1..] + t[0];
      assert Split(s, sep) == [[p[0]] + rest[0]] + rest[1..];
      assert [p[0]] + (p[1..] + t[0]) == p + t[0];
    }
  }

  /** Join and Split are inverse: splitting the join of separator-free parts gives the parts back. */
  lemma {:induction false} SplitJoin(parts: seq<string>, sep: char)
    requires |parts| >= 1
    requires forall i :: 0 <= i < |parts| ==> sep !in parts[i]
    ensures Split(Join(parts, sep), sep) == parts
    decreases |parts|
  {
    if |parts| == 1 {
      SplitAfterPiece(parts[0], "", sep);
      assert parts[0] + "" == parts[0];
    } else {
      var rest := parts[1..];
      SplitJoin(rest, sep);
      var tail := [sep] + Join(rest, sep);
      assert Join(parts, sep) == parts[0] + tail;
      SplitAfterPiece(parts[0], tail, sep);
      assert tail[0] == sep && tail[1..] == Join(rest, sep);
      assert Split(tail, sep) == [""] + Split(tail[1..], sep);
      assert Split(tail, sep) == [""] + rest;
      assert parts[0] + "" == parts[0];
      assert [parts[0] + ""] + rest == parts;
    }
  }
}
