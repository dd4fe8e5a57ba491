/**
 * `tr_identify` of sound_seg.c: a greedy scan of the target's samples for
 * windows that score at or above the threshold against the ad, reported as
 * `"start,end"` lines joined by newlines.  The score test
 * (`compute_cross_correlation(...) >= 0.95`) is a parameter of the model.
 */
module Identify {
  import opened Basics
  import opened SegHeap
  import opened SegTrack

  /** Whether a window of the target scores at or above the threshold against the ad. */
  type Score = (seq<int16>, seq<int16>) -> bool

  // ---------------------------------------------------------------------------
  // The greedy scan

  /** The window of `t` at `p` scores against the ad. */
  predicate Scores(t: seq<int16>, ad: seq<int16>, accept: Score, p: nat)
    requires p + |ad| <= |t|
  {
    accept(t[p..p + |ad|], ad)
  }

  /**
   * The start positions the scan reports from position `i` on: a window that
   * scores is reported and the scan resumes just past it; one that does not
   * moves the scan on by one.
   */
  function Matches(t: seq<int16>, ad: seq<int16>, accept: Score, i: nat): seq<nat>
    requires 0 < |ad| <= |t|
    decreases |t| - i
  {
    if i + |ad| > |t| then []
    else if Scores(t, ad, accept, i) then [i] + Matches(t, ad, accept, i + |ad|)
    else Matches(t, ad, accept, i + 1)
  }

  /**
   * The reports `ms` of a scan from `i`: each lies at or after `i`, its window
   * fits in the target and scores, and each starts at or after the end of
   * every one before it, so they are in scan order and do not overlap.
   */
  predicate Sound(t: seq<int16>, ad: seq<int16>, accept: Score, i: nat, ms: seq<nat>)
  {
    (forall j :: 0 <= j < |ms| ==> i <= ms[j] && ms[j] + |ad| <= |t| && Scores(t, ad, accept, ms[j])) &&
    (forall j, k :: 0 <= j < k < |ms| ==> ms[j] + |ad| <= ms[k])
  }

  /** Some report of `ms` covers position `p`. */
  predicate Covers(ms: seq<nat>, n: nat, p: nat)
  {
    exists j :: 0 <= j < |ms| && ms[j] <= p < ms[j] + n
  }

  /** A scoring window at `i` followed by sound reports from past its end is sound from `i`. */
  lemma SoundCons(t: seq<int16>, ad: seq<int16>, accept: Score, i: nat, rest: seq<nat>)
    requires i + |ad| <= |t| && Scores(t, ad, accept, i) && Sound(t, ad, accept, i + |ad|, rest)
    ensures Sound(t, ad, accept, i, [i] + rest)
  {
    var ms := [i] + rest;
    forall j | 0 <= j < |ms| ensures i <= ms[j] && ms[j] + |ad| <= |t| && Scores(t, ad, accept, ms[j]) {
      if j > 0 { assert ms[j] == rest[j - 1]; }
    }
    forall j, k | 0 <= j < k < |ms| ensures ms[j] + |ad| <= ms[k] {
      assert ms[k] == rest[k - 1];
      if j > 0 { assert ms[j] == rest[j - 1]; }
    }
  }

  /** What the scan reports from `i` on is sound. */
  lemma {:induction false} MatchesSound(t: seq<int16>, ad: seq<int16>, accept: Score, i: nat)
    requires 0 < |ad| <= |t|
    ensures Sound(t, ad, accept, i, Matches(t, ad, accept, i))
    decreases |t| - i
  {
    if i + |ad| <= |t| {
      if Scores(t, ad, accept, i) {
        MatchesSound(t, ad, accept, i + |ad|);
        SoundCons(t, ad, accept, i, Matches(t, ad, accept, i + |ad|));
      } else {
        MatchesSound(t, ad, accept, i + 1);
      }
    }
  }

  /**
   * Every window at or after `i` that scores is covered by a report: the
   * scan skips a scoring window only when it overlaps the report before.
   */
  lemma {:induction false} MatchesComplete(t: seq<int16>, ad: seq<int16>, accept: Score, i: nat, p: nat)
    requires 0 < |ad| <= |t| && i <= p && p + |ad| <= |t| && Scores(t, ad, accept, p)
    ensures Covers(Matches(t, ad, accept, i), |ad|, p)
    decreases |t| - i
  {
    var ms := Matches(t, ad, accept, i);
    if Scores(t, ad, accept, i) {
      var rest := Matches(t, ad, accept, i + |ad|);
      assert ms == [i] + rest;
      if p < i + |ad| {
        assert ms[0] <= p < ms[0] + |ad|;
      } else {
        MatchesComplete(t, ad, accept, i + |ad|, p);
        var j :| 0 <= j < |rest| && rest[j] <= p < rest[j] + |ad|;
        assert ms[j + 1] == rest[j];
      }
    } else {
      assert p != i;
      MatchesComplete(t, ad, accept, i + 1, p);
    }
  }

  /** `m` is the first position at or after `lo` whose window scores. */
  predicate FirstFrom(t: seq<int16>, ad: seq<int16>, accept: Score, lo: nat, m: nat)
  {
    lo <= m && m + |ad| <= |t| && Scores(t, ad, accept, m) &&
    forall p :: lo <= p < m ==> !Scores(t, ad, accept, p)
  }

  /** No window at or after `lo` scores. */
  predicate NoneFrom(t: seq<int16>, ad: seq<int16>, accept: Score, lo: nat)
  {
    forall p :: lo <= p && p + |ad| <= |t| ==> !Scores(t, ad, accept, p)
  }

  /**
   * The greedy choice from `i`: the first report is the first scoring window
   * from `i`, each later report is the first scoring window at or after the
   * end of the one before, and no window scores after the end of the last.
   */
  predicate GreedyFrom(t: seq<int16>, ad: seq<int16>, accept: Score, i: nat, ms: seq<nat>)
  {
    (ms == [] ==> NoneFrom(t, ad, accept, i)) &&
    (ms != [] ==> FirstFrom(t, ad, accept, i, ms[0]) && NoneFrom(t, ad, accept, ms[|ms| - 1] + |ad|)) &&
    (forall j :: 0 < j < |ms| ==> FirstFrom(t, ad, accept, ms[j - 1] + |ad|, ms[j]))
  }

  /** The scan's reports from `i` are the greedy choice from `i`. */
  lemma {:induction false} MatchesGreedy(t: seq<int16>, ad: seq<int16>, accept: Score, i: nat)
    requires 0 < |ad| <= |t|
    ensures GreedyFrom(t, ad, accept, i, Matches(t, ad, accept, i))
    decreases |t| - i
  {
    var ms := Matches(t, ad, accept, i);
    if i + |ad| <= |t| {
      if Scores(t, ad, accept, i) {
        var rest := Matches(t, ad, accept, i + |ad|);
        MatchesGreedy(t, ad, accept, i + |ad|);
        assert ms == [i] + rest;
        forall j | 0 < j < |ms| ensures FirstFrom(t, ad, accept, ms[j - 1] + |ad|, ms[j]) {
          assert ms[j] == rest[j - 1];
          if j > 1 { assert ms[j - 1] == rest[j - 2]; }
        }
        if rest != [] { assert ms[|ms| - 1] == rest[|rest| - 1]; }
      } else {
        MatchesGreedy(t, ad, accept, i + 1);
      }
    }
  }

  /** The scan reports nothing exactly when no window scores. */
  lemma MatchesNone(t: seq<int16>, ad: seq<int16>, accept: Score)
    requires 0 < |ad| <= |t|
    ensures Matches(t, ad, accept, 0) == [] <==>
      forall p :: 0 <= p <= |t| - |ad| ==> !Scores(t, ad, accept, p)
  {
    var ms := Matches(t, ad, accept, 0);
    MatchesSound(t, ad, accept, 0);
    if ms != [] {
      assert Scores(t, ad, accept, ms[0]);
    }
    forall p | 0 <= p <= |t| - |ad| && Scores(t, ad, accept, p) ensures ms != [] {
      MatchesComplete(t, ad, accept, 0, p);
    }
  }

  // ---------------------------------------------------------------------------
  // `%zu` and the report's text

  function Digit(d: nat): (c: char)
    requires d < 10
    ensures '0' <= c <= '9'
  {
    ('0' as int + d) as char
  }

  predicate AllDigits(s: string)
  {
    forall i :: 0 <= i < |s| ==> '0' <= s[i] <= '9'
  }

  /** `%zu`: the decimal digits of `n`, with no leading zero. */
  function Decimal(n: nat): (s: string)
    ensures |s| >= 1 && AllDigits(s) && (n == 0 || s[0] != '0')
    decreases n
  {
    if n < 10 then [Digit(n)] else Decimal(n / 10) + [Digit(n % 10)]
  }

  /** The number a string of decimal digits denotes. */
  function Value(s: string): nat
    requires AllDigits(s)
  {
    if s == [] then 0 else Value(s[..|s| - 1]) * 10 + (s[|s| - 1] as int - '0' as int)
  }

  /** Reading the digits of `n` back gives `n`. */
  lemma {:induction false} DecimalValue(n: nat)
    ensures Value(Decimal(n)) == n
    decreases n
  {
    if n >= 10 {
      DecimalValue(n / 10);
      var s := Decimal(n);
      assert s[..|s| - 1] == Decimal(n / 10);
    }
  }

  /** The report of a window starting at `m` of `n` samples: `"m,m+n-1"`. */
  function Line(m: nat, n: nat): string
    requires n >= 1
  {
    Decimal(m) + "," + Decimal(m + n - 1)
  }

  /** What the result buffer holds after the reports `ms`: each line followed by `'\n'`. */
  function Terminated(ms: seq<nat>, n: nat): string
    requires n >= 1
  {
    if ms == [] then "" else Line(ms[0], n) + "\n" + Terminated(ms[1..], n)
  }

  /** The reports `ms` joined by `'\n'`, with no newline after the last. */
  function Joined(ms: seq<nat>, n: nat): string
    requires n >= 1
  {
    if ms == [] then ""
    else if |ms| == 1 then Line(ms[0], n)
    else Line(ms[0], n) + "\n" + Joined(ms[1..], n)
  }

  /** Appending a report to the buffer puts its line and a newline at the end. */
  lemma {:induction false} TerminatedAppend(ms: seq<nat>, m: nat, n: nat)
    requires n >= 1
    ensures Terminated(ms + [m], n) == Terminated(ms, n) + Line(m, n) + "\n"
  {
    if ms == [] {
      assert ms + [m] == [m];
    } else {
      assert (ms + [m])[1..] == ms[1..] + [m];
      TerminatedAppend(ms[1..], m, n);
    }
  }

  /** The buffer of a non-empty run of reports is the joined reports and one trailing newline. */
  lemma {:induction false} TerminatedJoined(ms: seq<nat>, n: nat)
    requires n >= 1 && ms != []
    ensures Terminated(ms, n) == Joined(ms, n) + "\n"
  {
    if |ms| > 1 {
      TerminatedJoined(ms[1..], n);
    }
  }

  /** The joined reports are empty exactly when there are none, and never end in a newline. */
  lemma {:induction false} JoinedShape(ms: seq<nat>, n: nat)
    requires n >= 1
    ensures var s := Joined(ms, n);
      (s == "" <==> ms == []) && (s != "" ==> '0' <= s[|s| - 1] <= '9')
  {
    if |ms| > 1 {
      JoinedShape(ms[1..], n);
    }
  }

  // ---------------------------------------------------------------------------
  // Reading the report back

  /** `s` cut at every `sep`: the pieces between separators, in order. */
  function Split(s: string, sep: char): (parts: seq<string>)
    ensures |parts| >= 1
    decreases |s|
  {
    if s == [] then [""]
    else if s[0] == sep then [""] + Split(s[1..], sep)
    else var rest := Split(s[1..], sep); [[s[0]] + rest[0]] + rest[1..]
  }

  /** A string without `sep` is one piece. */
  lemma {:induction false} SplitNone(a: string, sep: char)
    requires forall i :: 0 <= i < |a| ==> a[i] != sep
    ensures Split(a, sep) == [a]
    decreases |a|
  {
    if a != [] {
      SplitNone(a[1..], sep);
      assert [a[0]] + a[1..] == a;
    }
  }

  /** A piece without `sep`, then `sep`: that piece comes first, then the pieces of the rest. */
  lemma {:induction false} SplitFirst(a: string, sep: char, b: string)
    requires forall i :: 0 <= i < |a| ==> a[i] != sep
    ensures Split(a + [sep] + b, sep) == [a] + Split(b, sep)
    decreases |a|
  {
    if a == [] {
      assert a + [sep] + b == [sep] + b;
      assert ([sep] + b)[1..] == b;
    } else {
      var s := a + [sep] + b;
      assert s[0] == a[0] && s[1..] == a[1..] + [sep] + b;
      SplitFirst(a[1..], sep, b);
      assert [a[0]] + a[1..] == a;
    }
  }

  /** A reported window as the pair of numbers on its line. */
  function DecodeLine(l: string): Option<(nat, nat)>
  {
    var p := Split(l, ',');
    if |p| == 2 && AllDigits(p[0]) && AllDigits(p[1]) then Some((Value(p[0]), Value(p[1]))) else None
  }

  function DecodeLines(ls: seq<string>): Option<seq<(nat, nat)>>
  {
    if ls == [] then Some([])
    else match (DecodeLine(ls[0]), DecodeLines(ls[1..]))
      case (Some(w), Some(ws)) => Some([w] + ws)
      case _ => None
  }

  /** The windows a report names, or None when it is not a list of `"start,end"` lines. */
  function Decode(out: string): Option<seq<(nat, nat)>>
  {
    if out == "" then Some([]) else DecodeLines(Split(out, '\n'))
  }

  /** Each report `m` as the window `(m, m + n - 1)` it names. */
  function Windows(ms: seq<nat>, n: nat): (ws: seq<(nat, nat)>)
    requires n >= 1
    ensures |ws| == |ms|
  {
    seq(|ms|, j requires 0 <= j < |ms| => (ms[j], ms[j] + n - 1))
  }

  /** A report's line holds no newline. */
  lemma LineOneLine(m: nat, n: nat)
    requires n >= 1
    ensures forall i :: 0 <= i < |Line(m, n)| ==> Line(m, n)[i] != '\n'
  {
    var a, b := Decimal(m), Decimal(m + n - 1);
    assert Line(m, n) == a + [','] + b;
    forall i | 0 <= i < |Line(m, n)| ensures Line(m, n)[i] != '\n' {
      if i < |a| { assert Line(m, n)[i] == a[i]; }
      else if i > |a| { assert Line(m, n)[i] == b[i - |a| - 1]; }
    }
  }

  /** A report's line reads back as its window. */
  lemma LineDecodes(m: nat, n: nat)
    requires n >= 1
    ensures DecodeLine(Line(m, n)) == Some((m, m + n - 1))
  {
    var a, b := Decimal(m), Decimal(m + n - 1);
    assert Line(m, n) == a + [','] + b;
    SplitFirst(a, ',', b);
    SplitNone(b, ',');
    var p := Split(Line(m, n), ',');
    assert p == [a, b];
    DecimalValue(m);
    DecimalValue(m + n - 1);
  }

  /** The line of each report, in order. */
  function Lines(ms: seq<nat>, n: nat): (ls: seq<string>)
    requires n >= 1
    ensures |ls| == |ms| && forall j :: 0 <= j < |ms| ==> ls[j] == Line(ms[j], n)
  {
    seq(|ms|, j requires 0 <= j < |ms| => Line(ms[j], n))
  }

  /** Cut at its newlines, the joined reports are their lines. */
  lemma {:induction false} JoinedSplit(ms: seq<nat>, n: nat)
    requires n >= 1 && ms != []
    ensures Split(Joined(ms, n), '\n') == Lines(ms, n)
  {
    LineOneLine(ms[0], n);
    if |ms| == 1 {
      SplitNone(Line(ms[0], n), '\n');
      assert Lines(ms, n) == [Line(ms[0], n)];
    } else {
      JoinedSplit(ms[1..], n);
      assert Joined(ms, n) == Line(ms[0], n) + ['\n'] + Joined(ms[1..], n);
      SplitFirst(Line(ms[0], n), '\n', Joined(ms[1..], n));
      assert Lines(ms, n) == [Line(ms[0], n)] + Lines(ms[1..], n);
    }
  }

  /** Each line reads back as the window of its report. */
  lemma {:induction false} LinesDecode(ms: seq<nat>, n: nat)
    requires n >= 1
    ensures DecodeLines(Lines(ms, n)) == Some(Windows(ms, n))
  {
    if ms != [] {
      LineDecodes(ms[0], n);
      LinesDecode(ms[1..], n);
      var ls := Lines(ms, n);
      assert ls[0] == Line(ms[0], n) && ls[1..] == Lines(ms[1..], n);
      assert Windows(ms, n) == [(ms[0], ms[0] + n - 1)] + Windows(ms[1..], n);
    }
  }

  /** Reading the joined reports back gives each reported window as `(start, end)`. */
  lemma JoinedDecodes(ms: seq<nat>, n: nat)
    requires n >= 1
    ensures Decode(Joined(ms, n)) == Some(Windows(ms, n))
  {
    JoinedShape(ms, n);
    if ms != [] {
      JoinedSplit(ms, n);
      LinesDecode(ms, n);
    }
  }

  // ---------------------------------------------------------------------------
  // tr_identify

  /**
   * The result of `tr_identify` on the target's samples `t` and the ad's
   * samples `ad`: nothing when the ad is longer than the target; nothing for
   * an empty ad, whose score is 0/0 and so never reaches the threshold; else
   * the scan's reports, joined.
   */
  function Identified(t: seq<int16>, ad: seq<int16>, accept: Score): string
  {
    if |ad| > |t| || |ad| == 0 then "" else Joined(Matches(t, ad, accept, 0), |ad|)
  }

  /**
   * The result is empty exactly when the ad is longer than the target, is
   * empty, or no window scores; a non-empty result ends in a digit, not a
   * newline.
   */
  lemma IdentifiedEmpty(t: seq<int16>, ad: seq<int16>, accept: Score)
    ensures var r := Identified(t, ad, accept);
      (r == "" <==> |ad| > |t| || |ad| == 0 || forall p :: 0 <= p <= |t| - |ad| ==> !Scores(t, ad, accept, p)) &&
      (r != "" ==> '0' <= r[|r| - 1] <= '9')
  {
    if 0 < |ad| <= |t| {
      MatchesNone(t, ad, accept);
      JoinedShape(Matches(t, ad, accept, 0), |ad|);
    }
  }

  /**
   * `ws` lists, in order, windows `(start, end)` of `|ad|` samples of the
   * target that score; they do not overlap, and every window that scores
   * overlaps one of them.
   */
  predicate Describes(t: seq<int16>, ad: seq<int16>, accept: Score, ws: seq<(nat, nat)>)
  {
    (forall j :: 0 <= j < |ws| ==>
      ws[j].0 + |ad| <= |t| && ws[j].1 == ws[j].0 + |ad| - 1 && Scores(t, ad, accept, ws[j].0)) &&
    (forall j, k :: 0 <= j < k < |ws| ==> ws[j].1 < ws[k].0) &&
    (forall p {:trigger Spans(ws, p)} :: 0 <= p <= |t| - |ad| && Scores(t, ad, accept, p) ==> Spans(ws, p))
  }

  /** Some window of `ws` contains position `p`. */
  predicate Spans(ws: seq<(nat, nat)>, p: nat)
  {
    exists j :: 0 <= j < |ws| && ws[j].0 <= p <= ws[j].1
  }

  /** Sound reports that cover every scoring window describe the target's scoring windows. */
  lemma WindowsDescribe(t: seq<int16>, ad: seq<int16>, accept: Score, ms: seq<nat>)
    requires 0 < |ad| <= |t| && Sound(t, ad, accept, 0, ms)
    requires forall p {:trigger Covers(ms, |ad|, p)} :: 0 <= p <= |t| - |ad| && Scores(t, ad, accept, p) ==> Covers(ms, |ad|, p)
    ensures Describes(t, ad, accept, Windows(ms, |ad|))
  {
    var ws := Windows(ms, |ad|);
    forall j | 0 <= j < |ws|
      ensures ws[j].0 + |ad| <= |t| && ws[j].1 == ws[j].0 + |ad| - 1 && Scores(t, ad, accept, ws[j].0)
    {
      assert ws[j] == (ms[j], ms[j] + |ad| - 1);
    }
    forall j, k | 0 <= j < k < |ws| ensures ws[j].1 < ws[k].0 {
      assert ws[j] == (ms[j], ms[j] + |ad| - 1) && ws[k] == (ms[k], ms[k] + |ad| - 1);
    }
    forall p | 0 <= p <= |t| - |ad| && Scores(t, ad, accept, p) ensures Spans(ws, p) {
      assert Covers(ms, |ad|, p);
      var j :| 0 <= j < |ms| && ms[j] <= p < ms[j] + |ad|;
      assert ws[j].0 <= p <= ws[j].1;
    }
  }

  /** Read back line by line, the result describes the scoring windows of the greedy scan. */
  lemma IdentifiedReports(t: seq<int16>, ad: seq<int16>, accept: Score)
    requires 0 < |ad| <= |t|
    ensures Decode(Identified(t, ad, accept)).Some?
    ensures Describes(t, ad, accept, Decode(Identified(t, ad, accept)).value)
  {
    var ms := Matches(t, ad, accept, 0);
    assert Identified(t, ad, accept) == Joined(ms, |ad|);
    JoinedDecodes(ms, |ad|);
    MatchesSound(t, ad, accept, 0);
    forall p | 0 <= p <= |t| - |ad| && Scores(t, ad, accept, p) ensures Covers(ms, |ad|, p) {
      MatchesComplete(t, ad, accept, 0, p);
    }
    WindowsDescribe(t, ad, accept, ms);
  }

  /**
   * `ws` are the windows of the greedy scan: the first starts at the first
   * scoring window, each next one at the first scoring window past the end
   * of the one before, and none scores past the end of the last.
   */
  predicate Greedy(t: seq<int16>, ad: seq<int16>, accept: Score, ws: seq<(nat, nat)>)
  {
    (ws == [] ==> NoneFrom(t, ad, accept, 0)) &&
    (ws != [] ==> FirstFrom(t, ad, accept, 0, ws[0].0) && NoneFrom(t, ad, accept, ws[|ws| - 1].1 + 1)) &&
    (forall j :: 0 < j < |ws| ==> FirstFrom(t, ad, accept, ws[j - 1].1 + 1, ws[j].0))
  }

  /** The windows of greedy reports are greedy. */
  lemma WindowsGreedy(t: seq<int16>, ad: seq<int16>, accept: Score, ms: seq<nat>)
    requires 0 < |ad| && GreedyFrom(t, ad, accept, 0, ms)
    ensures Greedy(t, ad, accept, Windows(ms, |ad|))
  {
    var ws := Windows(ms, |ad|);
    forall j | 0 < j < |ws| ensures FirstFrom(t, ad, accept, ws[j - 1].1 + 1, ws[j].0) {
      assert ws[j - 1] == (ms[j - 1], ms[j - 1] + |ad| - 1) && ws[j] == (ms[j], ms[j] + |ad| - 1);
    }
    if ws != [] {
      assert ws[0].0 == ms[0];
      assert ws[|ws| - 1].1 + 1 == ms[|ms| - 1] + |ad|;
    }
  }

  /** Read back, the result lists exactly the windows the greedy scan picks. */
  lemma IdentifiedGreedy(t: seq<int16>, ad: seq<int16>, accept: Score)
    requires 0 < |ad| <= |t|
    ensures Decode(Identified(t, ad, accept)).Some?
    ensures Greedy(t, ad, accept, Decode(Identified(t, ad, accept)).value)
  {
    var ms := Matches(t, ad, accept, 0);
    assert Identified(t, ad, accept) == Joined(ms, |ad|);
    JoinedDecodes(ms, |ad|);
    MatchesGreedy(t, ad, accept, 0);
    WindowsGreedy(t, ad, accept, ms);
  }

  /** A report at `i` keeps the loop's invariant once the scan jumps past its window. */
  lemma ReportStep(t: seq<int16>, ad: seq<int16>, accept: Score, found: seq<nat>, i: nat)
    requires 0 < |ad| <= |t| && i + |ad| <= |t| && Scores(t, ad, accept, i)
    ensures found + Matches(t, ad, accept, i) == (found + [i]) + Matches(t, ad, accept, i + |ad|)
  {
    assert Matches(t, ad, accept, i) == [i] + Matches(t, ad, accept, i + |ad|);
  }

  /**
   * tr_identify's loop on the samples already read out: each scoring window
   * appends its line and a newline to the buffer and moves the scan past
   * itself (`i += ad_len - 1`, then the loop's `i++`).
   */
  method Collect(t: seq<int16>, ad: seq<int16>, accept: Score) returns (buffer: string)
    requires 0 < |ad| <= |t|
    ensures buffer == Terminated(Matches(t, ad, accept, 0), |ad|)
  {
    buffer := "";
    var i := 0;
    ghost var found: seq<nat> := [];
    while i <= |t| - |ad|
      invariant i <= |t|
      invariant found + Matches(t, ad, accept, i) == Matches(t, ad, accept, 0)
      invariant buffer == Terminated(found, |ad|)
      decreases |t| - i
    {
      if Scores(t, ad, accept, i) {
        var line := Line(i, |ad|) + "\n";
        ReportStep(t, ad, accept, found, i);
        TerminatedAppend(found, i, |ad|);
        buffer := buffer + line;
        found := found + [i];
        i := i + |ad| - 1;
      }
      i := i + 1;
    }
    assert found == Matches(t, ad, accept, 0);
  }

  /**
   * tr_identify once both tracks are read out: "" when the ad is longer
   * than the target; otherwise the loop's buffer, where an empty buffer
   * gives "" and a non-empty one loses its final newline.  An empty ad is
   * not scanned: its score is 0/0, which never reaches the threshold.
   */
  method Scan(t: seq<int16>, ad: seq<int16>, accept: Score) returns (r: string)
    ensures r == Identified(t, ad, accept)
  {
    if |ad| > |t| || |ad| == 0 {
      return "";
    }
    var buffer := Collect(t, ad, accept);
    if |buffer| == 0 {
      return "";
    }
    TerminatedJoined(Matches(t, ad, accept, 0), |ad|);
    // the source strips the last character only when it is a newline, which it always is
    assert buffer[|buffer| - 1] == '\n';
    r := buffer[..|buffer| - 1];
  }

  // ---------------------------------------------------------------------------
  // compute_cross_correlation on exact numbers

  /** The sum of the products of corresponding samples, exactly. */
  function Dot(a: seq<int16>, b: seq<int16>): int
    requires |a| == |b|
  {
    if a == [] then 0 else a[0] as int * b[0] as int + Dot(a[1..], b[1..])
  }

  /**
   * `compute_cross_correlation(w, ad, |ad|) >= 0.95` on exact numbers:
   * Σ w·ad / Σ ad·ad reaches 0.95; an all-zero ad gives 0/0, which never does.
   */
  predicate Correlates(w: seq<int16>, ad: seq<int16>)
  {
    |w| == |ad| && Dot(ad, ad) > 0 && 20 * Dot(w, ad) >= 19 * Dot(ad, ad)
  }

  lemma {:induction false} DotZero(w: seq<int16>, ad: seq<int16>)
    requires |w| == |ad| && forall i :: 0 <= i < |ad| ==> ad[i] == 0
    ensures Dot(w, ad) == 0
  {
    if ad != [] {
      DotZero(w[1..], ad[1..]);
    }
  }

  /** An all-zero ad matches nowhere: the result is "". */
  lemma ZeroAdMatchesNothing(t: seq<int16>, ad: seq<int16>)
    requires forall i :: 0 <= i < |ad| ==> ad[i] == 0
    ensures Identified(t, ad, Correlates) == ""
  {
    DotZero(ad, ad);
    IdentifiedEmpty(t, ad, Correlates);
  }

  /** `malloc` of a buffer of the track's length, then `tr_read` of the whole track into it. */
  method ReadAll(track: Track) returns (data: seq<int16>)
    requires track.Valid()
    ensures data == track.Contents()
  {
    var buffer := new int16[track.length];
    track.Read(buffer, 0, track.length);
    data := buffer[..];
  }

  /**
   * `tr_identify` on two tracks: each is read out in full with tr_read, then
   * scanned.  Neither track changes.
   */
  method IdentifyTracks(target: Track, ad: Track, accept: Score) returns (r: string)
    requires target.Valid() && ad.Valid()
    ensures r == Identified(target.Contents(), ad.Contents(), accept)
  {
    if ad.length > target.length {
      return "";
    }
    var targetData := ReadAll(target);
    var adData := ReadAll(ad);
    r := Scan(targetData, adData, accept);
  }
}
