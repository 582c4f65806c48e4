/**
  The filter-dedupe-sort pipeline of `processFile`: the file's text is split into
  lines, each trimmed line that is a single decimal integer inside the bounded
  domain [MIN_INTEGER, MAX_INTEGER] is recorded once (a boolean presence array
  indexed by `value - MIN_INTEGER` detects repeats), the recorded values are
  sorted ascending and written back as text, one value per line.
 */
module UniqueInt {
  import Text
  import Decimal
  import Sorting

  const MIN_INTEGER: int := -1023
  const MAX_INTEGER: int := 1023
  /** Number of values in the bounded domain, and the length of the presence array. */
  const TOTAL_RANGE: nat := MAX_INTEGER - MIN_INTEGER + 1

  datatype Option<T> = None | Some(value: T)

  predicate InRange(v: int) {
    MIN_INTEGER <= v <= MAX_INTEGER
  }

  // ---------------------------------------------------------------------------
  // What one line contributes

  /** The value a single input line contributes, if any: the line is trimmed; an empty
      line, or one that still splits into several whitespace-separated fields, is skipped;
      the rest must pass `isInteger`, and its parsed value must lie in the domain. */
  function LineValue(line: string): Option<int> {
    var cleanedLine := Text.Trim(line);
    if cleanedLine == [] || Text.FieldCount(cleanedLine) != 1 then None
    else if !Decimal.IsInteger(cleanedLine) then None
    else
      var number := Decimal.ParseInteger(cleanedLine);
      if MIN_INTEGER <= number && number <= MAX_INTEGER then Some(number) else None
  }

  /** A line is accepted exactly when its trimmed text passes `isInteger` and parses into
      the domain; the empty-line and field-count checks never reject anything more. */
  lemma LineValueAccepts(line: string)
    ensures var t := Text.Trim(line);
            LineValue(line) ==
              if Decimal.IsInteger(t) && InRange(Decimal.ParseInteger(t))
              then Some(Decimal.ParseInteger(t)) else None
  {
    var t := Text.Trim(line);
    if Decimal.IsInteger(t) {
      Decimal.IntegerHasNoWhitespace(t);
    }
  }

  /** Whitespace around a line, such as the carriage return of a CRLF line ending, does
      not change what the line contributes. */
  lemma PaddedLineValue(pre: string, t: string, post: string)
    requires Text.AllWhitespace(pre) && Text.AllWhitespace(post) && Text.Trimmed(t)
    ensures LineValue(pre + t + post) == LineValue(t)
  {
    Text.TrimPadded(pre, t, post);
    Text.TrimPadded([], t, []);
    assert [] + t + [] == t;
  }

  /** The values `f` gives to the items of `xs`, in order, skipping the items it gives none. */
  function FilterMap<T>(xs: seq<T>, f: T -> Option<int>): seq<int>
    decreases |xs|
  {
    if xs == [] then []
    else
      var head := FilterMap(xs[..|xs| - 1], f);
      match f(xs[|xs| - 1])
      case None => head
      case Some(v) => head + [v]
  }

  /** One more item adds its value, if it has one, at the end. */
  lemma FilterMapSnoc<T>(xs: seq<T>, f: T -> Option<int>, i: nat)
    requires i < |xs|
    ensures FilterMap(xs[..i + 1], f) ==
              match f(xs[i])
              case None => FilterMap(xs[..i], f)
              case Some(v) => FilterMap(xs[..i], f) + [v]
  {
    assert xs[..i + 1][..i] == xs[..i];
  }

  /** A value is kept exactly when some item is given it. */
  lemma {:induction false} FilterMapMembers<T>(xs: seq<T>, f: T -> Option<int>, v: int)
    ensures v in FilterMap(xs, f) <==> exists i :: 0 <= i < |xs| && f(xs[i]) == Some(v)
    decreases |xs|
  {
    if xs != [] {
      var n := |xs| - 1;
      var init := xs[..n];
      FilterMapMembers(init, f, v);
      assert forall i :: 0 <= i < n ==> init[i] == xs[i];
      if v in FilterMap(xs, f) && v !in FilterMap(init, f) {
        assert f(xs[n]) == Some(v);
      }
    }
  }

  /** When every item is given a value, the values are kept one for one, in order. */
  lemma {:induction false} FilterMapAll<T>(xs: seq<T>, f: T -> Option<int>, ys: seq<int>)
    requires |xs| == |ys|
    requires forall i :: 0 <= i < |xs| ==> f(xs[i]) == Some(ys[i])
    ensures FilterMap(xs, f) == ys
    decreases |xs|
  {
    if xs != [] {
      var n := |xs| - 1;
      assert forall i :: 0 <= i < n ==> xs[..n][i] == xs[i];
      FilterMapAll(xs[..n], f, ys[..n]);
      assert ys == ys[..n] + [ys[n]];
    }
  }

  /** The values contributed by `lines`, one per accepted line, in line order (repeats kept). */
  function LineValues(lines: seq<string>): seq<int> {
    FilterMap(lines, LineValue)
  }

  /** Some line of `lines` contributes the value `v`. */
  ghost predicate Contributes(lines: seq<string>, v: int) {
    exists i :: 0 <= i < |lines| && LineValue(lines[i]) == Some(v)
  }

  /** Soundness and completeness of the per-line filter: a value is among those contributed
      by `lines` exactly when some line contributes it, and it then lies in the domain. */
  lemma LineValuesMembers(lines: seq<string>, v: int)
    ensures v in LineValues(lines) <==> Contributes(lines, v)
    ensures v in LineValues(lines) ==> InRange(v)
  {
    FilterMapMembers(lines, LineValue, v);
  }

  /** `xs` with every repeat of an earlier value removed, first occurrences kept in order:
      the insertion order of a JavaScript Set that is fed `xs`. */
  function Dedup(xs: seq<int>): (ys: seq<int>)
    ensures Sorting.Distinct(ys)
    ensures forall x :: x in ys <==> x in xs
    decreases |xs|
  {
    if xs == [] then []
    else
      var init := xs[..|xs| - 1];
      var last := xs[|xs| - 1];
      var ys := Dedup(init);
      assert xs == init + [last];
      if last in ys then ys else ys + [last]
  }

  /** Feeding one more value to the deduplication appends it only when it is new. */
  lemma DedupSnoc(xs: seq<int>, x: int)
    ensures Dedup(xs + [x]) == if x in Dedup(xs) then Dedup(xs) else Dedup(xs) + [x]
  {
    assert (xs + [x])[..|xs|] == xs;
  }

  /** The members of `xs` that lie in [lo, hi], listed by scanning the values lo, lo + 1, ..., hi. */
  function AscendingMembers(xs: seq<int>, lo: int, hi: int): (ys: seq<int>)
    ensures Sorting.StrictlyIncreasing(ys)
    ensures forall v :: v in ys <==> v in xs && lo <= v <= hi
    decreases hi - lo + 1
  {
    if lo > hi then []
    else
      var rest := AscendingMembers(xs, lo + 1, hi);
      if lo in xs then
        var ys := [lo] + rest;
        assert forall k :: 0 < k < |ys| ==> ys[k] == rest[k - 1] && ys[k] in rest;
        ys
      else rest
  }

  /** The numbers the program writes out for the given lines: every accepted value once, ascending. */
  function SortedUnique(lines: seq<string>): seq<int> {
    AscendingMembers(LineValues(lines), MIN_INTEGER, MAX_INTEGER)
  }

  // ---------------------------------------------------------------------------
  // Serialisation

  /** `String(x)` for each number, in order. */
  function Rendered(xs: seq<int>): (texts: seq<string>)
    ensures |texts| == |xs|
  {
    seq(|xs|, i requires 0 <= i < |xs| => Decimal.Render(xs[i]))
  }

  /** `sortedNumbers.join('\n') + '\n'`. */
  function Serialise(xs: seq<int>): string {
    Text.Join(Rendered(xs), '\n') + "\n"
  }

  /** Each number's text followed by a newline. */
  function TerminatedLines(xs: seq<int>): string {
    if xs == [] then "" else Decimal.Render(xs[0]) + "\n" + TerminatedLines(xs[1..])
  }

  /** The written text is one line per number, each ended by a newline; with no numbers
      at all it is a single newline. */
  lemma {:induction false} SerialiseLines(xs: seq<int>)
    ensures Serialise(xs) == if xs == [] then "\n" else TerminatedLines(xs)
    decreases |xs|
  {
    var texts := Rendered(xs);
    if |xs| == 1 {
      assert Text.Join(texts, '\n') == Decimal.Render(xs[0]);
      assert TerminatedLines(xs) == Decimal.Render(xs[0]) + "\n" + "";
    } else if |xs| > 1 {
      SerialiseLines(xs[1..]);
      assert texts[1..] == Rendered(xs[1..]);
      assert Text.Join(texts, '\n') == Decimal.Render(xs[0]) + "\n" + Text.Join(Rendered(xs[1..]), '\n');
      assert Serialise(xs) == Decimal.Render(xs[0]) + "\n" + Serialise(xs[1..]);
    }
  }

  /** The whole transformation, from the input file's text to the output file's text. */
  function Output(fileContent: string): string {
    Serialise(SortedUnique(Text.Split(fileContent, '\n')))
  }

  // ---------------------------------------------------------------------------
  // The program

  /** The presence array and the recorded values agree: slot `k` is set exactly when
      `k + MIN_INTEGER` has been recorded, and every recorded value lies in the domain. */
  ghost predicate Presence(isNumberSeen: seq<bool>, uniqueNumbers: seq<int>) {
    && |isNumberSeen| == TOTAL_RANGE
    && (forall k :: 0 <= k < TOTAL_RANGE ==> (isNumberSeen[k] <==> k + MIN_INTEGER in uniqueNumbers))
    && (forall v :: v in uniqueNumbers ==> InRange(v))
  }

  /** Recording a new in-range value and setting its slot keeps the presence array in step. */
  lemma PresenceAdd(isNumberSeen: seq<bool>, uniqueNumbers: seq<int>, v: int)
    requires Presence(isNumberSeen, uniqueNumbers) && InRange(v) && !isNumberSeen[v - MIN_INTEGER]
    ensures v !in uniqueNumbers
    ensures Presence(isNumberSeen[v - MIN_INTEGER := true], uniqueNumbers + [v])
  {
  }

  /** The recorded values after one more line: its value is appended when it has one that
      has not been recorded yet. */
  function Record(uniqueNumbers: seq<int>, contribution: Option<int>): seq<int> {
    match contribution
    case None => uniqueNumbers
    case Some(v) => if v in uniqueNumbers then uniqueNumbers else uniqueNumbers + [v]
  }

  /** The `forEach` callback for one line: trim, skip empty or multi-field lines, test and
      parse the token, and record an in-range value whose presence slot is still clear.
      The presence array stays in step with the recorded values and only the slot of the
      line's own value can change. */
  method RecordLine(line: string, isNumberSeen: array<bool>, uniqueNumbers: seq<int>)
    returns (updated: seq<int>)
    requires Presence(isNumberSeen[..], uniqueNumbers)
    modifies isNumberSeen
    ensures updated == Record(uniqueNumbers, LineValue(line))
    ensures Presence(isNumberSeen[..], updated)
    ensures forall k :: 0 <= k < TOTAL_RANGE && LineValue(line) != Some(k + MIN_INTEGER) ==>
              isNumberSeen[k] == old(isNumberSeen[k])
  {
    updated := uniqueNumbers;
    var cleanedLine := Text.Trim(line);
    if cleanedLine == [] || Text.FieldCount(cleanedLine) != 1 {
      assert LineValue(line) == None;
      return;
    }
    if Decimal.IsInteger(cleanedLine) {
      var number := Decimal.ParseInteger(cleanedLine);
      assert LineValue(line) == if InRange(number) then Some(number) else None;
      var indexInRange := number - MIN_INTEGER;
      if number >= MIN_INTEGER && number <= MAX_INTEGER && !isNumberSeen[indexInRange] {
        ghost var before := isNumberSeen[..];
        PresenceAdd(before, uniqueNumbers, number);
        updated := uniqueNumbers + [number];
        isNumberSeen[indexInRange] := true;
        assert isNumberSeen[..] == before[indexInRange := true];
      } else if InRange(number) {
        assert number in uniqueNumbers;
      }
    } else {
      assert LineValue(line) == None;
    }
  }

  /** The `forEach` over the lines with a fresh all-false presence array. Every value of an
      accepted line is recorded, exactly once, in the order of first appearance, and
      nothing else is. */
  method CollectUnique(lines: seq<string>) returns (uniqueNumbers: seq<int>)
    ensures uniqueNumbers == Dedup(LineValues(lines))
    ensures Sorting.Distinct(uniqueNumbers)
    ensures forall v :: v in uniqueNumbers ==> InRange(v)
    ensures forall v :: v in uniqueNumbers <==> Contributes(lines, v)
  {
    var isNumberSeen := new bool[TOTAL_RANGE](_ => false);
    uniqueNumbers := [];
    var i := 0;
    while i < |lines|
      invariant 0 <= i <= |lines|
      invariant uniqueNumbers == Dedup(LineValues(lines[..i]))
      invariant Presence(isNumberSeen[..], uniqueNumbers)
    {
      FilterMapSnoc(lines, LineValue, i);
      ghost var previous := LineValues(lines[..i]);
      match LineValue(lines[i]) {
        case None =>
        case Some(v) => DedupSnoc(previous, v);
      }
      uniqueNumbers := RecordLine(lines[i], isNumberSeen, uniqueNumbers);
      i := i + 1;
    }
    assert lines[..i] == lines;
    forall v ensures v in uniqueNumbers <==> Contributes(lines, v) {
      LineValuesMembers(lines, v);
    }
  }

  /** A sorted permutation of the deduplicated line values is strictly increasing and is
      the ascending listing of the accepted values. */
  lemma SortedDedupListing(sortedNumbers: seq<int>, lines: seq<string>)
    requires Sorting.Sorted(sortedNumbers)
    requires multiset(sortedNumbers) == multiset(Dedup(LineValues(lines)))
    ensures Sorting.StrictlyIncreasing(sortedNumbers)
    ensures sortedNumbers == SortedUnique(lines)
  {
    var uniqueNumbers := Dedup(LineValues(lines));
    Sorting.PermutationDistinct(sortedNumbers, uniqueNumbers);
    forall v ensures v in sortedNumbers <==> v in SortedUnique(lines) {
      LineValuesMembers(lines, v);
      assert v in sortedNumbers <==> v in multiset(sortedNumbers);
      assert v in uniqueNumbers <==> v in multiset(uniqueNumbers);
    }
    Sorting.StrictlyIncreasingUnique(sortedNumbers, SortedUnique(lines));
  }

  /** `processFile` between reading the input and writing the output: collect the unique
      in-range values, copy them into an array, sort it ascending, and render the text to
      write. The numbers are the strictly increasing listing of exactly the values of the
      accepted lines, and the text is their serialisation. */
  method ProcessContent(fileContent: string) returns (sortedNumbers: seq<int>, output: string)
    ensures Sorting.StrictlyIncreasing(sortedNumbers)
    ensures forall v :: v in sortedNumbers ==> InRange(v)
    ensures forall v :: v in sortedNumbers <==> Contributes(Text.Split(fileContent, '\n'), v)
    ensures sortedNumbers == SortedUnique(Text.Split(fileContent, '\n'))
    ensures output == Serialise(sortedNumbers) == Output(fileContent)
  {
    var lines := Text.Split(fileContent, '\n');
    var uniqueNumbers := CollectUnique(lines);
    var a := new int[|uniqueNumbers|](i requires 0 <= i < |uniqueNumbers| => uniqueNumbers[i]);
    assert a[..] == uniqueNumbers;
    Sorting.InsertionSort(a);
    sortedNumbers := a[..];
    SortedDedupListing(sortedNumbers, lines);
    forall v ensures v in sortedNumbers <==> Contributes(lines, v) {
      LineValuesMembers(lines, v);
    }
    output := Serialise(sortedNumbers);
  }

  // ---------------------------------------------------------------------------
  // Properties of the whole transformation

  /** The rendering of an in-range number is a line that contributes exactly that number. */
  lemma RenderedLineValue(x: int)
    requires InRange(x)
    ensures LineValue(Decimal.Render(x)) == Some(x)
  {
    var t := Decimal.Render(x);
    Decimal.ParseRender(x);
    Decimal.IntegerHasNoWhitespace(t);
    Text.TrimNoWhitespace(t);
  }

  /** Reading back rendered in-range numbers, one per line, gives the numbers in order. */
  lemma LineValuesRendered(xs: seq<int>)
    requires forall x :: x in xs ==> InRange(x)
    ensures LineValues(Rendered(xs)) == xs
  {
    forall i | 0 <= i < |xs| ensures LineValue(Rendered(xs)[i]) == Some(xs[i]) {
      RenderedLineValue(xs[i]);
    }
    FilterMapAll(Rendered(xs), LineValue, xs);
  }

  /** Splitting the written text into lines gives one line per number followed by the empty
      line after the final newline (two empty lines when there are no numbers). */
  lemma SplitSerialise(xs: seq<int>)
    ensures Text.Split(Serialise(xs), '\n') == (if xs == [] then ["", ""] else Rendered(xs) + [""])
  {
    var parts := if xs == [] then ["", ""] else Rendered(xs) + [""];
    if xs == [] {
      assert Text.Join(parts[1..], '\n') == "";
      assert Text.Join(parts, '\n') == "\n" == Serialise(xs);
    } else {
      Text.JoinSnoc(Rendered(xs), "", '\n');
      assert Text.Join(Rendered(xs), '\n') + ['\n'] + "" == Serialise(xs);
    }
    forall i | 0 <= i < |parts| ensures '\n' !in parts[i] {
      if i < |xs| {
        Decimal.ParseRender(xs[i]);
        Decimal.IntegerHasNoWhitespace(parts[i]);
        assert parts[i] == Decimal.Render(xs[i]);
      }
    }
    Text.SplitJoin(parts, '\n');
  }

  /** Running the transformation on its own output reproduces that output: the written file
      is already a strictly increasing list of distinct in-range integers. */
  lemma OutputFixedPoint(fileContent: string)
    ensures Output(Output(fileContent)) == Output(fileContent)
  {
    var ys := SortedUnique(Text.Split(fileContent, '\n'));
    var lines := Text.Split(Serialise(ys), '\n');
    SplitSerialise(ys);
    assert LineValue("") == None;
    var n := |lines| - 1;
    FilterMapSnoc(lines, LineValue, n);
    assert lines[..n + 1] == lines;
    if ys == [] {
      FilterMapSnoc(lines, LineValue, 0);
      assert lines[..0] == [];
    } else {
      assert lines[..n] == Rendered(ys);
      LineValuesRendered(ys);
    }
    assert LineValues(lines) == ys;
    Sorting.StrictlyIncreasingUnique(AscendingMembers(ys, MIN_INTEGER, MAX_INTEGER), ys);
  }

  /** The output depends only on which lines occur, not on their order or how often each
      repeats: two inputs with the same set of lines give the same output. */
  lemma SameLinesSameOutput(content1: string, content2: string)
    requires forall l :: l in Text.Split(content1, '\n') <==> l in Text.Split(content2, '\n')
    ensures Output(content1) == Output(content2)
  {
    var a := SortedUnique(Text.Split(content1, '\n'));
    var b := SortedUnique(Text.Split(content2, '\n'));
    var lines1 := Text.Split(content1, '\n');
    var lines2 := Text.Split(content2, '\n');
    forall v ensures v in LineValues(lines1) ==> v in LineValues(lines2) {
      LineValuesMembers(lines1, v);
      LineValuesMembers(lines2, v);
      if v in LineValues(lines1) {
        var i :| 0 <= i < |lines1| && LineValue(lines1[i]) == Some(v);
        assert lines1[i] in lines2;
        var j :| 0 <= j < |lines2| && lines2[j] == lines1[i];
      }
    }
    forall v ensures v in LineValues(lines2) ==> v in LineValues(lines1) {
      LineValuesMembers(lines1, v);
      LineValuesMembers(lines2, v);
      if v in LineValues(lines2) {
        var j :| 0 <= j < |lines2| && LineValue(lines2[j]) == Some(v);
        assert lines2[j] in lines1;
        var i :| 0 <= i < |lines1| && lines1[i] == lines2[j];
      }
    }
    Sorting.StrictlyIncreasingUnique(a, b);
  }
}
