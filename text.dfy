/** Text produced by the event store: `%u` decimal rendering of numbers,
    fields separated by one character, and lines ended by a newline.
    Each rendering comes with the parse that reads it back, so that the
    output formats can be stated as round trips. */
module Text {

  predicate IsDigit(c: char) {
    '0' <= c <= '9'
  }

  predicate AllDigits(s: string) {
    forall k :: 0 <= k < |s| ==> IsDigit(s[k])
  }

  function DigitChar(d: nat): (c: char)
    requires d < 10
    ensures IsDigit(c) && c as int - '0' as int == d
  {
    (('0' as int) + d) as char
  }

  /** The decimal text `sprintf("%u", n)` writes: at least one digit and no
      leading zero; the number zero itself is the single digit `0`. */
  function Decimal(n: nat): (s: string)
    ensures |s| >= 1 && AllDigits(s)
    ensures (s[0] == '0') <==> n == 0
    ensures s[0] == '0' ==> |s| == 1
    decreases n
  {
    if n < 10 then [DigitChar(n)] else Decimal(n / 10) + [DigitChar(n % 10)]
  }

  /** The value of a string of decimal digits, most significant first. */
  function ParseDecimal(s: string): nat
    requires AllDigits(s)
  {
    if |s| == 0 then 0
    else ParseDecimal(s[..|s| - 1]) * 10 + (s[|s| - 1] as int - '0' as int)
  }

  lemma {:induction false} ParseDecimalOfDecimal(n: nat)
    ensures ParseDecimal(Decimal(n)) == n
    decreases n
  {
    var s := Decimal(n);
    if n >= 10 {
      ParseDecimalOfDecimal(n / 10);
      assert s[..|s| - 1] == Decimal(n / 10);
    } else {
      assert s[..|s| - 1] == [];
    }
  }

  /** `parts` written one after the other with `sep` between two neighbours
      and nowhere else. */
  function Join(parts: seq<string>, sep: char): string {
    if |parts| == 0 then ""
    else if |parts| == 1 then parts[0]
    else Join(parts[..|parts| - 1], sep) + [sep] + parts[|parts| - 1]
  }

  /** Joining one more part adds the separator only after the first. */
  lemma JoinPrefixStep(parts: seq<string>, sep: char, k: nat)
    requires k < |parts|
    ensures Join(parts[..k + 1], sep) == Join(parts[..k], sep) + (if k > 0 then [sep] else []) + parts[k]
  {
    assert parts[..k + 1][..k] == parts[..k];
  }

  /** `lines` each followed by a newline. */
  function Terminated(lines: seq<string>): string {
    if |lines| == 0 then ""
    else Terminated(lines[..|lines| - 1]) + lines[|lines| - 1] + "\n"
  }

  /** Terminated text is empty exactly when there are no lines, and
      otherwise ends with a newline. */
  lemma TerminatedEnds(lines: seq<string>)
    ensures Terminated(lines) == "" <==> lines == []
    ensures lines != [] ==> Terminated(lines)[|Terminated(lines)| - 1] == '\n'
  {
  }

  predicate NoneContains(parts: seq<string>, c: char) {
    forall k :: 0 <= k < |parts| ==> c !in parts[k]
  }

  /** The position of the last `c` in `s`, or -1 when there is none. */
  function LastIndex(s: string, c: char): (r: int)
    ensures -1 <= r < |s|
    ensures r >= 0 ==> s[r] == c && forall k :: r < k < |s| ==> s[k] != c
    ensures r == -1 ==> c !in s
  {
    if |s| == 0 then -1
    else if s[|s| - 1] == c then |s| - 1
    else LastIndex(s[..|s| - 1], c)
  }

  /** `s` cut at every `c`; the pieces never contain `c`. */
  function SplitOn(s: string, c: char): (parts: seq<string>)
    ensures |parts| >= 1 && NoneContains(parts, c)
    decreases |s|
  {
    var k := LastIndex(s, c);
    if k < 0 then [s] else SplitOn(s[..k], c) + [s[k + 1..]]
  }

  /** The space-separated fields of a line; the empty line has none. */
  function Fields(line: string): seq<string> {
    if line == "" then [] else SplitOn(line, ' ')
  }

  /** The lines of a text whose every line ends with a newline. */
  function SplitLines(s: string): seq<string> {
    if s == "" then [] else SplitOn(s[..|s| - 1], '\n')
  }

  lemma {:induction false} JoinAvoids(parts: seq<string>, sep: char, c: char)
    requires c != sep && NoneContains(parts, c)
    ensures c !in Join(parts, sep)
  {
    if |parts| > 1 {
      JoinAvoids(parts[..|parts| - 1], sep, c);
    }
  }

  lemma {:induction false} JoinStartsWith(parts: seq<string>, sep: char)
    requires |parts| >= 1
    ensures |Join(parts, sep)| >= |parts[0]| && Join(parts, sep)[..|parts[0]|] == parts[0]
  {
    if |parts| > 1 {
      var init := parts[..|parts| - 1];
      JoinStartsWith(init, sep);
      assert init[0] == parts[0];
    }
  }

  /** The last `c` of `j + [c] + last` is the one added, when `last` has none. */
  lemma {:induction false} LastIndexOfGlued(j: string, c: char, last: string)
    requires c !in last
    ensures LastIndex(j + [c] + last, c) == |j|
    decreases |last|
  {
    var s := j + [c] + last;
    if |last| > 0 {
      var init := last[..|last| - 1];
      assert s[|s| - 1] == last[|last| - 1] != c;
      assert s[..|s| - 1] == j + [c] + init;
      LastIndexOfGlued(j, c, init);
    }
  }

  /** Cutting at `sep` undoes joining with `sep`. */
  lemma {:induction false} SplitOnJoin(parts: seq<string>, sep: char)
    requires |parts| >= 1 && NoneContains(parts, sep)
    ensures SplitOn(Join(parts, sep), sep) == parts
  {
    if |parts| == 1 {
      assert LastIndex(parts[0], sep) == -1;
    } else {
      var init, last := parts[..|parts| - 1], parts[|parts| - 1];
      var j := Join(init, sep);
      var s := j + [sep] + last;
      assert Join(parts, sep) == s;
      LastIndexOfGlued(j, sep, last);
      assert s[..|j|] == j;
      assert s[|j| + 1..] == last;
      SplitOnJoin(init, sep);
      assert SplitOn(s, sep) == SplitOn(j, sep) + [last];
      assert init + [last] == parts;
    }
  }

  lemma {:induction false} TerminatedIsJoin(lines: seq<string>)
    requires |lines| >= 1
    ensures Terminated(lines) == Join(lines, '\n') + "\n"
  {
    if |lines| > 1 {
      TerminatedIsJoin(lines[..|lines| - 1]);
    } else {
      assert lines[..0] == [];
    }
  }

  /** Reading lines back from newline-terminated lines gives the lines. */
  lemma SplitLinesOfTerminated(lines: seq<string>)
    requires NoneContains(lines, '\n')
    ensures SplitLines(Terminated(lines)) == lines
  {
    if |lines| >= 1 {
      TerminatedIsJoin(lines);
      var t := Terminated(lines);
      assert t[..|t| - 1] == Join(lines, '\n');
      SplitOnJoin(lines, '\n');
    }
  }

  /** Reading the fields back from a space-separated line gives the fields. */
  lemma FieldsOfJoin(parts: seq<string>)
    requires NoneContains(parts, ' ')
    requires forall k :: 0 <= k < |parts| ==> parts[k] != ""
    ensures Fields(Join(parts, ' ')) == parts
  {
    if |parts| >= 1 {
      JoinStartsWith(parts, ' ');
      SplitOnJoin(parts, ' ');
    }
  }
}
