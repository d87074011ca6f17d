/** Leading line numbers, as ACM's review format prints them: the run of lines
    at the start of a page that are numerals, each one more than the last. */
module LineNumbers {
  import opened Text

  /** Every line is a numeral, and each is one more than the line before it
      (the first one may be any number). */
  predicate NumberedRun(lines: seq<string>) {
    && (forall k :: 0 <= k < |lines| ==> IsNumeral(lines[k]))
    && (forall k :: 1 <= k < |lines| ==> NumeralValue(lines[k]) == NumeralValue(lines[k - 1]) + 1)
  }

  /** Number of leading lines continuing a count that stood at `last`. */
  function RunAfter(lines: seq<string>, last: nat): (n: nat)
    ensures n <= |lines|
  {
    if |lines| == 0 || !IsNumeral(lines[0]) || NumeralValue(lines[0]) != last + 1 then 0
    else 1 + RunAfter(lines[1..], last + 1)
  }

  /** Number of leading numbered lines. */
  function NumberedPrefix(lines: seq<string>): (n: nat)
    ensures n <= |lines|
  {
    if |lines| == 0 || !IsNumeral(lines[0]) then 0
    else 1 + RunAfter(lines[1..], NumeralValue(lines[0]))
  }

  /** The lines counted by `RunAfter` are numbered `last + 1`, `last + 2`, ...,
      and the line after them is not the next number. */
  lemma {:induction false} RunAfterCounts(lines: seq<string>, last: nat)
    ensures forall k :: 0 <= k < RunAfter(lines, last) ==>
              IsNumeral(lines[k]) && NumeralValue(lines[k]) == last + 1 + k
    ensures RunAfter(lines, last) < |lines| ==>
              !(IsNumeral(lines[RunAfter(lines, last)]) &&
                NumeralValue(lines[RunAfter(lines, last)]) == last + 1 + RunAfter(lines, last))
  {
    if |lines| > 0 && IsNumeral(lines[0]) && NumeralValue(lines[0]) == last + 1 {
      RunAfterCounts(lines[1..], last + 1);
    }
  }

  /** A numbered run stays one when cut short. */
  lemma NumberedRunPrefix(lines: seq<string>, i: nat, j: nat)
    requires i <= j <= |lines|
    requires NumberedRun(lines[..j])
    ensures NumberedRun(lines[..i])
  {
    assert forall k :: 0 <= k < i ==> lines[..i][k] == lines[..j][k];
  }

  /** `NumberedPrefix` is the length of the longest numbered run at the start. */
  lemma NumberedPrefixIsLongest(lines: seq<string>)
    ensures NumberedRun(lines[..NumberedPrefix(lines)])
    ensures NumberedPrefix(lines) < |lines| ==> !NumberedRun(lines[..NumberedPrefix(lines) + 1])
  {
    var n := NumberedPrefix(lines);
    if n > 0 {
      var v := NumeralValue(lines[0]);
      RunAfterCounts(lines[1..], v);
      assert forall k :: 0 <= k < n ==> IsNumeral(lines[k]) && NumeralValue(lines[k]) == v + k;
      assert NumberedRun(lines[..n]);
      if n < |lines| {
        assert lines[..n + 1][n] == lines[n] && lines[..n + 1][n - 1] == lines[n - 1];
      }
    } else if |lines| > 0 {
      assert lines[..1][0] == lines[0];
    }
  }

  /** The longest numbered run is unique: any length with the two defining
      properties is `NumberedPrefix`. */
  lemma LongestRunIsNumberedPrefix(lines: seq<string>, i: nat)
    requires i <= |lines|
    requires NumberedRun(lines[..i])
    requires i < |lines| ==> !NumberedRun(lines[..i + 1])
    ensures i == NumberedPrefix(lines)
  {
    var n := NumberedPrefix(lines);
    NumberedPrefixIsLongest(lines);
    if i < n {
      NumberedRunPrefix(lines, i + 1, n);
    } else if n < i {
      NumberedRunPrefix(lines, n + 1, i);
    }
  }

  /** `countLineNumbers`: walk the lines while each parses as a number one
      greater than the previous one; the first number may be anything. */
  method CountLineNumbers(lines: seq<string>) returns (i: nat)
    ensures i <= |lines| && NumberedRun(lines[..i])
    ensures i < |lines| ==> !NumberedRun(lines[..i + 1])
    ensures i == NumberedPrefix(lines)
  {
    i := 0;
    var counter: int := -1;
    while i < |lines|
      invariant i <= |lines|
      invariant NumberedRun(lines[..i])
      invariant i == 0 ==> counter == -1
      invariant i > 0 ==> counter == NumeralValue(lines[i - 1])
    {
      if !IsNumeral(lines[i]) {
        // Integer.parseInt throws: first line of real text
        assert lines[..i + 1][i] == lines[i];
        break;
      }
      var nr := NumeralValue(lines[i]);
      if counter != -1 && counter + 1 != nr {
        // numbers not consecutive
        assert lines[..i + 1][i] == lines[i] && lines[..i + 1][i - 1] == lines[i - 1];
        break;
      }
      counter := nr;
      assert lines[..i + 1] == lines[..i] + [lines[i]];
      i := i + 1;
    }
    LongestRunIsNumberedPrefix(lines, i);
  }

  /** `stripLineNumbers`: split into lines, drop the leading numbered run,
      join the rest with newlines and end with a newline. */
  function StripLineNumbers(text: string): (r: string)
    ensures |r| > 0 && r[|r| - 1] == '\n'
  {
    var lines := Split(text);
    Join(lines[NumberedPrefix(lines)..], "\n") + "\n"
  }

  /** The lines of the stripped text are exactly the lines after the
      numbered run (an empty text has no lines left). */
  lemma StrippedLines(text: string)
    ensures text != "" ==>
      Split(StripLineNumbers(text)) == Split(text)[NumberedPrefix(Split(text))..]
    ensures text == "" ==> StripLineNumbers(text) == "\n"
  {
    var lines := Split(text);
    var rest := lines[NumberedPrefix(lines)..];
    SplitJoinedLines(rest);
    if text != "" {
      SplitEndsInLine(text);
      assert rest == [] || rest[|rest| - 1] == lines[|lines| - 1];
      assert DropTrailingEmpty(rest) == rest;
    } else {
      assert lines == [""];
    }
  }

  /** The last line of a non-empty text is not empty. */
  lemma SplitEndsInLine(text: string)
    requires text != ""
    ensures Split(text) == [] || Split(text)[|Split(text)| - 1] != ""
  {
    if '\n' !in text {
      assert Split(text) == [text];
    }
  }

  /** Dropping some leading parts of a join never makes it longer, and
      dropping a non-empty first part makes it shorter. */
  lemma {:induction false} JoinSuffixShorter(xs: seq<string>, m: nat)
    requires 1 <= m <= |xs|
    requires xs[0] != ""
    ensures |Join(xs[m..], "\n")| < |Join(xs, "\n")|
  {
    if |xs| > 1 {
      if m > 1 {
        if xs[1] != "" {
          JoinSuffixShorter(xs[1..], m - 1);
          assert xs[1..][m - 1..] == xs[m..];
        } else {
          JoinNotLonger(xs[1..], m - 1);
          assert xs[1..][m - 1..] == xs[m..];
        }
      }
    }
  }

  /** Dropping leading parts of a join never makes it longer. */
  lemma {:induction false} JoinNotLonger(xs: seq<string>, m: nat)
    requires m <= |xs|
    ensures |Join(xs[m..], "\n")| <= |Join(xs, "\n")|
  {
    if m > 0 {
      JoinNotLonger(xs[1..], m - 1);
      assert xs[1..][m - 1..] == xs[m..];
    }
  }

  /** Stripping twice equals stripping once exactly when the first line left
      after the numbered run is not itself a numeral: the operation is not
      idempotent, since a broken run leaves a new run behind. */
  lemma StripAgainIff(text: string)
    ensures var lines := Split(text);
            var n := NumberedPrefix(lines);
            StripLineNumbers(StripLineNumbers(text)) == StripLineNumbers(text) <==>
            (n == |lines| || !IsNumeral(lines[n]))
  {
    var lines := Split(text);
    var n := NumberedPrefix(lines);
    var once := StripLineNumbers(text);
    StrippedLines(text);
    if text == "" {
      assert lines == [""];
      assert Split(once) == [];
    } else {
      var rest := lines[n..];
      assert Split(once) == rest;
      var m := NumberedPrefix(rest);
      if m > 0 {
        JoinSuffixShorter(rest, m);
        assert |StripLineNumbers(once)| < |once|;
      }
    }
  }

  /** The example `10, 11, 14, 15, HELLO WORLD`: two numbers are counted;
      with `12, 13` in between, four are; a text line alone counts none. */
  lemma NonSequentialExample(lines: seq<string>, sequential: seq<string>)
    requires lines == ["10", "11", "14", "15", "HELLO WORLD"]
    requires sequential == ["10", "11", "12", "13", "HELLO WORLD"]
    ensures NumberedPrefix(lines) == 2
    ensures NumberedPrefix(sequential) == 4
    ensures NumberedPrefix(lines[4..]) == 0
  {
    TwoDigitValue(lines[0]);
    TwoDigitValue(lines[1]);
    TwoDigitValue(lines[2]);
    assert RunAfter(lines[2..], 11) == 0;
    assert lines[1..][1..] == lines[2..];
    assert RunAfter(lines[1..], 10) == 1;
    TwoDigitValue(sequential[1]);
    TwoDigitValue(sequential[2]);
    TwoDigitValue(sequential[3]);
    assert !IsNumeral(lines[4]) by { assert !IsDigit(lines[4][0]); }
    assert sequential[4] == lines[4];
    assert RunAfter(sequential[4..], 13) == 0;
    assert sequential[3..][1..] == sequential[4..];
    assert RunAfter(sequential[3..], 12) == 1;
    assert sequential[2..][1..] == sequential[3..];
    assert RunAfter(sequential[2..], 11) == 2;
    assert sequential[1..][1..] == sequential[2..];
    assert RunAfter(sequential[1..], 10) == 3;
    assert lines[4..][0] == lines[4];
  }

  /** The value of a two-digit numeral. */
  lemma TwoDigitValue(s: string)
    requires |s| == 2 && IsDigit(s[0]) && IsDigit(s[1])
    ensures NumeralValue(s) == 10 * DigitValue(s[0]) + DigitValue(s[1])
  {
    var head := s[..1];
    assert head[..0] == [] && head[0] == s[0];
    assert NumeralValue(head) == DigitValue(s[0]);
  }
}
