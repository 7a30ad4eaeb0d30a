/** strtok: a tokenizer that keeps its cursor between calls and cuts the string
    in place. */
module Strtok {

  // A token: the characters text[start..end].
  datatype Run = Run(start: nat, end: nat)

  predicate IsDelim(delims: string, c: char) { c in delims }

  /** A maximal stretch of text without delimiters. */
  ghost predicate MaximalRun(text: string, delims: string, r: Run) {
    && r.start < r.end <= |text|
    && (forall i :: r.start <= i < r.end ==> !IsDelim(delims, text[i]))
    && (r.start == 0 || IsDelim(delims, text[r.start - 1]))
    && (r.end == |text| || IsDelim(delims, text[r.end]))
  }

  ghost function SkipDelims(text: string, delims: string, p: nat): (q: nat)
    requires p <= |text|
    ensures p <= q <= |text| && (q < |text| ==> !IsDelim(delims, text[q]))
    ensures forall i :: p <= i < q ==> IsDelim(delims, text[i])
    decreases |text| - p
  {
    if p < |text| && IsDelim(delims, text[p]) then SkipDelims(text, delims, p + 1) else p
  }

  ghost function SkipToken(text: string, delims: string, p: nat): (q: nat)
    requires p <= |text|
    ensures p <= q <= |text| && (q < |text| ==> IsDelim(delims, text[q]))
    ensures forall i :: p <= i < q ==> !IsDelim(delims, text[i])
    ensures p < |text| && !IsDelim(delims, text[p]) ==> p < q
    decreases |text| - p
  {
    if p < |text| && !IsDelim(delims, text[p]) then SkipToken(text, delims, p + 1) else p
  }

  // The tokens from p on.
  ghost function Runs(text: string, delims: string, p: nat): seq<Run>
    requires p <= |text|
    decreases |text| - p
  {
    var start := SkipDelims(text, delims, p);
    if start == |text| then []
    else
      var end := SkipToken(text, delims, start);
      [Run(start, end)] + Runs(text, delims, if end < |text| then end + 1 else end)
  }

  // The place where the search for the next token resumes.
  function After(text: string, end: nat): nat { if end < |text| then end + 1 else end }

  lemma {:induction false} RunsAreMaximal(text: string, delims: string, p: nat, r: Run)
    requires p <= |text| && (p == 0 || p == |text| || IsDelim(delims, text[p - 1]))
    requires r in Runs(text, delims, p)
    ensures MaximalRun(text, delims, r) && p <= r.start
    decreases |text| - p
  {
    var start := SkipDelims(text, delims, p);
    if start < |text| {
      var end := SkipToken(text, delims, start);
      if r != Run(start, end) {
        RunsAreMaximal(text, delims, After(text, end), r);
      }
    }
  }

  // The first delimiter at or after a position inside a run is the run's end,
  // and no position of a run is skipped as a delimiter.
  lemma RunStops(text: string, delims: string, r: Run, p: nat, q: nat)
    requires MaximalRun(text, delims, r) && p <= q <= |text|
    ensures (forall i :: p <= i < q ==> IsDelim(delims, text[i])) && p <= r.start ==> q <= r.start
    ensures (forall i :: p <= i < q ==> !IsDelim(delims, text[i])) && r.start <= p <= r.end ==> q <= r.end
    ensures (forall i :: p <= i < q ==> !IsDelim(delims, text[i])) && p < r.start ==> q < r.start
  {
    assert !IsDelim(delims, text[r.start]);
    assert r.end == |text| || IsDelim(delims, text[r.end]);
    assert r.start == 0 || IsDelim(delims, text[r.start - 1]);
  }

  lemma {:induction false} MaximalAreRuns(text: string, delims: string, p: nat, r: Run)
    requires p <= |text| && MaximalRun(text, delims, r) && p <= r.start
    ensures r in Runs(text, delims, p)
    decreases |text| - p
  {
    var start := SkipDelims(text, delims, p);
    RunStops(text, delims, r, p, start);
    var end := SkipToken(text, delims, start);
    RunStops(text, delims, r, start, end);
    if r.start == start {
      assert r.end == end;
    } else {
      MaximalAreRuns(text, delims, After(text, end), r);
    }
  }

  /** The tokens are exactly the maximal delimiter-free runs. */
  lemma TokensAreMaximalRuns(text: string, delims: string, r: Run)
    ensures r in Runs(text, delims, 0) <==>
              && r.start < r.end <= |text|
              && (forall i :: r.start <= i < r.end ==> text[i] !in delims)
              && (r.start == 0 || text[r.start - 1] in delims)
              && (r.end == |text| || text[r.end] in delims)
  {
    if r in Runs(text, delims, 0) {
      RunsAreMaximal(text, delims, 0, r);
    }
    if MaximalRun(text, delims, r) {
      MaximalAreRuns(text, delims, 0, r);
    }
    InDelims(text, delims, r);
  }

  lemma InDelims(text: string, delims: string, r: Run)
    ensures MaximalRun(text, delims, r) <==>
              && r.start < r.end <= |text|
              && (forall i :: r.start <= i < r.end ==> text[i] !in delims)
              && (r.start == 0 || text[r.start - 1] in delims)
              && (r.end == |text| || text[r.end] in delims)
  {
    if r.start < r.end <= |text| {
      assert forall i :: 0 <= i < |text| ==> (IsDelim(delims, text[i]) <==> text[i] in delims);
    }
  }

  /** Tokens come in order, separated by at least the delimiter that is cut. */
  lemma {:induction false} RunsInOrder(text: string, delims: string, p: nat, i: nat, j: nat)
    requires p <= |text| && (p == 0 || p == |text| || IsDelim(delims, text[p - 1]))
    requires i < j < |Runs(text, delims, p)|
    ensures Runs(text, delims, p)[i].end < Runs(text, delims, p)[j].start
    decreases |text| - p
  {
    var start := SkipDelims(text, delims, p);
    var end := SkipToken(text, delims, start);
    var rest := Runs(text, delims, After(text, end));
    assert Runs(text, delims, p) == [Run(start, end)] + rest;
    if i == 0 {
      RunsAreMaximal(text, delims, After(text, end), rest[j - 1]);
      NoRunsAtEnd(text, delims);
    } else {
      RunsInOrder(text, delims, After(text, end), i - 1, j - 1);
    }
  }

  lemma NoRunsAtEnd(text: string, delims: string)
    ensures Runs(text, delims, |text|) == []
  {
  }

  // ------------------------------------------------------------ the tokenizer

  // buf holds text and its NUL, with the ends of the tokens in `done` cut.
  ghost predicate CutAt(buf: string, text: string, done: seq<Run>) {
    && |buf| == |text| + 1 && '\0' !in text && buf[|text|] == '\0'
    && forall i :: 0 <= i < |text| ==>
         buf[i] == if EndsAt(done, i) then '\0' else text[i]
  }

  // Some returned token ends right before position i.
  ghost predicate EndsAt(done: seq<Run>, i: int) {
    exists r :: r in done && r.end == i
  }

  lemma CutStep(buf: string, text: string, done: seq<Run>, r: Run)
    requires CutAt(buf, text, done) && r.end <= |text|
    ensures CutAt(if r.end < |text| then buf[r.end := '\0'] else buf, text, done + [r])
  {
    var all := done + [r];
    forall i ensures EndsAt(all, i) <==> EndsAt(done, i) || i == r.end {
      if EndsAt(done, i) {
        var x :| x in done && x.end == i;
        assert x in all;
      }
      assert r in all;
    }
  }

  lemma CutLength(buf: string, text: string, done: seq<Run>)
    requires CutAt(buf, text, done)
    ensures |buf| == |text| + 1
  {
  }

  // Nothing from the cursor on has been cut yet.
  lemma Uncut(buf: string, text: string, done: seq<Run>, p: nat, i: nat)
    requires CutAt(buf, text, done) && p <= i <= |text|
    requires forall r :: r in done ==> r.end < p || r.end == |text|
    ensures buf[i] == (if i < |text| then text[i] else '\0') && (buf[i] == '\0' <==> i == |text|)
  {
    if i < |text| {
      assert text[i] in text;
    }
  }

  lemma RunsStep(text: string, delims: string, p: nat)
    requires p <= |text|
    ensures var start := SkipDelims(text, delims, p);
            Runs(text, delims, p) ==
              if start == |text| then []
              else [Run(start, SkipToken(text, delims, start))]
                   + Runs(text, delims, After(text, SkipToken(text, delims, start)))
  {
  }

  class Tokenizer {
    var buf: array<char>         // the string being cut
    var next: int                // the static next_token: an index, or -1 for NULL
    ghost var text: string       // the string as it was handed in
    ghost var delims: string
    ghost var done: seq<Run>     // the tokens returned so far

    constructor ()
      ensures next == -1
    {
      buf := new char[1](_ => '\0');
      next, text, delims, done := -1, [], [], [];
    }

    // The tokens still to come.
    ghost function Remaining(): seq<Run>
      reads this
    {
      if next < 0 || next > |text| then [] else Runs(text, delims, next)
    }

    ghost predicate Valid()
      reads this, buf
    {
      && -1 <= next <= |text|
      && CutAt(buf[..], text, done)
      && done + Remaining() == Runs(text, delims, 0)
      && (next > 0 ==> next == |text| || IsDelim(delims, text[next - 1]))
      && (next >= 0 ==> forall r :: r in done ==> r.end < next || r.end == |text|)
    }

    // The inner loop over the delimiters.
    method Matches(c: char, delim: string) returns (isDelim: bool)
      ensures isDelim == IsDelim(delim, c)
    {
      isDelim := false;
      for d := 0 to |delim|
        invariant c !in delim[..d]
      {
        if c == delim[d] {
          return true;
        }
      }
      assert delim[..|delim|] == delim;
    }

    /** strtok(str, delim): starts on a new string. */
    method Start(str: array<char>, delim: string) returns (token: int)
      requires str.Length > 0 && str[str.Length - 1] == '\0' && '\0' !in str[..str.Length - 1] && '\0' !in delim
      modifies this, str
      ensures Valid() && buf == str && delims == delim && text == old(str[..str.Length - 1])
      ensures var all := Runs(text, delims, 0);
              if all == [] then token == -1 && done == [] && next == -1
              else token == all[0].start && done == [all[0]] && Remaining() == all[1..]
    {
      buf, next := str, 0;
      text, delims, done := str[..str.Length - 1], delim, [];
      token := Next(delim);
    }

    /** strtok(NULL, delim): the next token, in order, or NULL when there are no
        more; only the delimiter after the token is overwritten. */
    method Next(delim: string) returns (token: int)
      requires Valid() && delim == delims && '\0' !in delim
      modifies this`next, this`done, buf
      ensures Valid() && text == old(text) && delims == old(delims)
      ensures if old(Remaining()) == [] then token == -1 && done == old(done) && next == -1
              else token == old(Remaining())[0].start
                   && done == old(done) + [old(Remaining())[0]] && Remaining() == old(Remaining())[1..]
      // only the delimiter after the token is overwritten
      ensures buf.Length == |text| + 1
      ensures if old(Remaining()) == [] || old(Remaining())[0].end >= |text| then buf[..] == old(buf[..])
              else buf[..] == old(buf[..])[old(Remaining())[0].end := '\0']
    {
      hide Runs, CutAt;
      CutLength(buf[..], text, done);
      if next == -1 {
        return -1;
      }
      RunsStep(text, delims, next);
      var start := SkipLeading(next, delim);
      Uncut(buf[..], text, done, next, start);
      if buf[start] == '\0' {
        next := -1;
        return -1;
      }
      token := start;
      var end := FindEnd(start, delim);
      Cut(start, end);
    }

    // The end of strtok: cut after the token and move the cursor.
    method Cut(start: nat, end: nat)
      requires Valid() && 0 <= next <= start < end <= |text|
      requires Remaining() == [Run(start, end)] + Runs(text, delims, After(text, end))
      requires end < |text| ==> IsDelim(delims, text[end])
      modifies this`next, this`done, buf
      ensures Valid() && done == old(done) + [Run(start, end)] && buf.Length == |text| + 1
      ensures buf[..] == if end < |text| then old(buf[..])[end := '\0'] else old(buf[..])
      ensures Remaining() == Runs(text, delims, After(text, end))
    {
      hide Runs, CutAt, IsDelim;
      ghost var (was, r) := (buf[..], Run(start, end));
      ghost var rest := Runs(text, delims, After(text, end));
      CutLength(was, text, done);
      Uncut(was, text, done, next, end);
      CutStep(was, text, done, r);
      assert done + ([r] + rest) == done + [r] + rest;
      if buf[end] != '\0' {
        buf[end] := '\0';
        assert buf[..] == was[end := '\0'];
        next := end + 1;
      } else {
        next := end;
      }
      done := done + [r];
    }

    // The first loop of strtok: moves to the start of a token, or to the NUL.
    method SkipLeading(p: nat, delim: string) returns (q: nat)
      requires Valid() && p == next && delim == delims && '\0' !in delim
      ensures q == SkipDelims(text, delims, p)
    {
      q := p;
      while buf[q] != '\0'
        invariant p <= q <= |text| && SkipDelims(text, delims, p) == SkipDelims(text, delims, q)
        decreases |text| - q
      {
        Uncut(buf[..], text, done, p, q);
        var isDelim := Matches(buf[q], delim);
        if !isDelim {
          break;
        }
        q := q + 1;
      }
      Uncut(buf[..], text, done, p, q);
    }

    // The second loop of strtok: stops at a delimiter or the NUL.
    method FindEnd(start: nat, delim: string) returns (end: nat)
      requires Valid() && 0 <= next <= start < |text| && delim == delims && '\0' !in delim
      ensures end == SkipToken(text, delims, start)
    {
      end := start;
      while buf[end] != '\0'
        invariant start <= end <= |text| && SkipToken(text, delims, start) == SkipToken(text, delims, end)
        decreases |text| - end
      {
        Uncut(buf[..], text, done, next, end);
        var isDelim := Matches(buf[end], delim);
        if isDelim {
          break;
        }
        end := end + 1;
      }
      Uncut(buf[..], text, done, next, end);
    }
  }
}
