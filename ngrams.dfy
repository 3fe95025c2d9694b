/** The word n-gram tokenizer of LSH::load_ngrams_from_file, over the lines
    of a document. Lines are trimmed and blank ones skipped; each remaining
    line is prefixed with what the previous lines carried over, split at
    every whitespace character, and every window of n consecutive tokens
    becomes one n-gram. */
module NGrams {
  import opened Text

  /** What one line leaves for the next: the last n tokens of a line that
      held a whole window, or the whole (prefixed) line that did not. */
  datatype Carry = Carry(lastNgram: seq<string>, prevLine: string)

  datatype Tokenizer = Tokenizer(ngrams: set<string>, carry: Carry)

  const Start: Tokenizer := Tokenizer({}, Carry([], ""))

  /** The trimmed line with the carry put in front of it: the last n-1
      tokens of the previous full line, each followed by a space, when n > 1;
      otherwise a pending short line and one space. */
  function Prefixed(line: string, carry: Carry, n: nat): string {
    if n > 1 && carry.lastNgram != [] then JoinSpaced(carry.lastNgram[1..]) + line
    else if carry.prevLine != [] then carry.prevLine + " " + line
    else line
  }

  /** The n-gram starting at token i: the tokens written with a space after
      each, then trimmed. */
  function Window(tokens: seq<string>, n: nat, i: nat): string
    requires i + n <= |tokens|
  {
    Trim(JoinSpaced(tokens[i..i + n]))
  }

  function WindowAt(tokens: seq<string>, n: nat): nat --> string {
    (i: nat) requires i + n <= |tokens| => Window(tokens, n, i)
  }

  /** The values f(0), ..., f(i - 1). */
  function ImageBelow<T>(f: nat --> T, i: nat): set<T>
    requires forall k: nat :: k < i ==> f.requires(k)
  {
    set k: nat | k < i :: f(k)
  }

  lemma ImageBelowStep<T>(f: nat --> T, i: nat)
    requires forall k: nat :: k <= i ==> f.requires(k)
    ensures ImageBelow(f, i + 1) == ImageBelow(f, i) + {f(i)}
  {
    assert forall x :: x in ImageBelow(f, i + 1) ==> x in ImageBelow(f, i) + {f(i)};
  }

  lemma ImageBelowHas<T>(f: nat --> T, i: nat, k: nat)
    requires forall j: nat :: j < i ==> f.requires(j)
    requires k < i
    ensures f(k) in ImageBelow(f, i)
  {
  }

  lemma ImageBelowSame<T>(f: nat --> T, g: nat --> T, i: nat)
    requires forall k: nat :: k < i ==> f.requires(k) && g.requires(k) && f(k) == g(k)
    ensures ImageBelow(f, i) == ImageBelow(g, i)
  {
    assert forall x :: x in ImageBelow(f, i) ==> x in ImageBelow(g, i);
  }

  /** All windows of n consecutive tokens. */
  function Windows(tokens: seq<string>, n: nat): set<string>
    requires n <= |tokens|
  {
    ImageBelow(WindowAt(tokens, n), |tokens| - n + 1)
  }

  /** One iteration of the line loop: blank lines are skipped, others are
      read with the carry in front. */
  function Step(st: Tokenizer, line: string, n: nat): Tokenizer {
    var t := Trim(line);
    if t == [] then st else Advance(st, Prefixed(t, st.carry, n), n)
  }

  /** A non-blank line, carry included: its windows and its last n tokens
      when it has n tokens, otherwise it is carried whole. */
  function Advance(st: Tokenizer, full: string, n: nat): Tokenizer {
    var tokens := Split(full);
    if |tokens| >= n then Tokenizer(st.ngrams + Windows(tokens, n), Carry(tokens[|tokens| - n..], ""))
    else Tokenizer(st.ngrams, Carry([], full))
  }

  /** A blank line changes nothing. */
  lemma StepBlank(st: Tokenizer, line: string, n: nat)
    requires Trim(line) == []
    ensures Step(st, line, n) == st
  {
  }

  /** A line that, with its carry, holds a whole window adds its windows and
      carries its last n tokens. */
  lemma StepFull(st: Tokenizer, line: string, n: nat, tokens: seq<string>)
    requires Trim(line) != [] && tokens == Split(Prefixed(Trim(line), st.carry, n)) && |tokens| >= n
    ensures Step(st, line, n) == Tokenizer(st.ngrams + Windows(tokens, n), Carry(tokens[|tokens| - n..], ""))
  {
    assert Step(st, line, n) == Advance(st, Prefixed(Trim(line), st.carry, n), n);
  }

  /** A line that, with its carry, is shorter than a window is carried
      whole. */
  lemma StepShort(st: Tokenizer, line: string, n: nat, full: string)
    requires Trim(line) != [] && full == Prefixed(Trim(line), st.carry, n) && |Split(full)| < n
    ensures Step(st, line, n) == Tokenizer(st.ngrams, Carry([], full))
  {
  }

  /** The loop after the given lines. */
  function Run(lines: seq<string>, n: nat): Tokenizer {
    if lines == [] then Start else Step(Run(lines[..|lines| - 1], n), lines[|lines| - 1], n)
  }

  /** One more line is one more step of the loop. */
  lemma RunPrefix(lines: seq<string>, l: nat, n: nat)
    requires l < |lines|
    ensures Run(lines[..l + 1], n) == Step(Run(lines[..l], n), lines[l], n)
  {
    assert lines[..l + 1][..l] == lines[..l];
  }

  /** The n-gram set of a document. */
  function Tokenize(lines: seq<string>, n: nat): set<string> {
    Run(lines, n).ngrams
  }

  function NonBlank(lines: seq<string>): (r: seq<string>)
    ensures forall k :: 0 <= k < |r| ==> Trim(r[k]) != []
  {
    if lines == [] then []
    else if Trim(lines[|lines| - 1]) == [] then NonBlank(lines[..|lines| - 1])
    else NonBlank(lines[..|lines| - 1]) + [lines[|lines| - 1]]
  }

  /** The carry the loop keeps: at most one of its parts is set; the last
      n-gram is n whitespace-free tokens; a pending line is not blank and has
      fewer than n tokens, so there is none for n <= 1. */
  ghost predicate CarryOk(c: Carry, n: nat) {
    && (c.lastNgram == [] || c.prevLine == [])
    && (c.lastNgram != [] ==> |c.lastNgram| == n && forall k :: 0 <= k < n ==> NoSpace(c.lastNgram[k]))
    && (c.prevLine != [] ==> !AllSpace(c.prevLine) && |Split(c.prevLine)| < n)
  }

  // ---------------------------------------------------------------- lemmas

  /** Every line keeps the carry well-formed. */
  lemma StepKeepsCarry(st: Tokenizer, line: string, n: nat)
    requires CarryOk(st.carry, n)
    ensures CarryOk(Step(st, line, n).carry, n)
  {
    var t := Trim(line);
    if t == [] {
      StepBlank(st, line, n);
    } else {
      var full := Prefixed(t, st.carry, n);
      var tokens := Split(full);
      if |tokens| >= n {
        StepFull(st, line, n, tokens);
        FullLineCarry(tokens, n);
      } else {
        StepShort(st, line, n, full);
        PrefixedNotBlank(t, st.carry, n);
        ShortLineCarry(full, n);
      }
    }
  }

  /** A line with a whole window carries its last n tokens. */
  lemma FullLineCarry(tokens: seq<string>, n: nat)
    requires |tokens| >= n && forall k :: 0 <= k < |tokens| ==> NoSpace(tokens[k])
    ensures CarryOk(Carry(tokens[|tokens| - n..], ""), n)
  {
    var last := tokens[|tokens| - n..];
    assert forall k :: 0 <= k < n ==> last[k] == tokens[|tokens| - n + k];
  }

  /** A line without a whole window is carried as it is. */
  lemma ShortLineCarry(full: string, n: nat)
    requires !AllSpace(full) && |Split(full)| < n
    ensures CarryOk(Carry([], full), n)
  {
  }

  /** The carry goes in front of a trimmed line, so the line still ends with
      the trimmed line's last, non-space character. */
  lemma PrefixedNotBlank(t: string, carry: Carry, n: nat)
    requires t != [] && !IsSpace(t[|t| - 1])
    ensures !AllSpace(Prefixed(t, carry, n))
  {
    var full := Prefixed(t, carry, n);
    assert full[|full| - 1] == t[|t| - 1];
  }

  lemma {:induction false} RunCarryOk(lines: seq<string>, n: nat)
    ensures CarryOk(Run(lines, n).carry, n)
  {
    if lines != [] {
      RunCarryOk(lines[..|lines| - 1], n);
      StepKeepsCarry(Run(lines[..|lines| - 1], n), lines[|lines| - 1], n);
    }
  }

  /** Later lines only add n-grams. */
  lemma {:induction false} NgramsGrow(lines: seq<string>, more: seq<string>, n: nat)
    ensures Tokenize(lines, n) <= Tokenize(lines + more, n)
    decreases |more|
  {
    if more == [] {
      assert lines + more == lines;
    } else {
      var all, prev := lines + more, lines + more[..|more| - 1];
      assert all[..|all| - 1] == prev;
      NgramsGrow(lines, more[..|more| - 1], n);
      LastLineGrows(all, n);
    }
  }

  lemma LastLineGrows(lines: seq<string>, n: nat)
    requires lines != []
    ensures Tokenize(lines[..|lines| - 1], n) <= Tokenize(lines, n)
  {
    var st := Run(lines[..|lines| - 1], n);
    assert Run(lines, n) == Step(st, lines[|lines| - 1], n);
    StepGrows(st, lines[|lines| - 1], n);
  }

  /** One line only adds n-grams. */
  lemma StepGrows(st: Tokenizer, line: string, n: nat)
    ensures st.ngrams <= Step(st, line, n).ngrams
  {
  }

  /** Blank lines change nothing: neither the n-grams nor the carry. */
  lemma {:induction false} BlankLinesSkipped(lines: seq<string>, n: nat)
    ensures Run(NonBlank(lines), n) == Run(lines, n)
    decreases |lines|
  {
    if lines != [] {
      BlankLinesSkipped(lines[..|lines| - 1], n);
      var nb := NonBlank(lines);
      if Trim(lines[|lines| - 1]) != [] {
        assert nb[..|nb| - 1] == NonBlank(lines[..|lines| - 1]);
      }
    }
  }

  /** After a line that held a whole window, the next non-blank line is read
      as the previous line's last n-1 tokens followed by its own tokens, so
      the first n-gram spans the two lines. */
  lemma CrossLineNgram(st: Tokenizer, line: string, n: nat)
    requires n > 1 && CarryOk(st.carry, n) && st.carry.lastNgram != []
    requires Trim(line) != []
    ensures Split(Prefixed(Trim(line), st.carry, n)) == st.carry.lastNgram[1..] + Split(Trim(line))
    ensures Trim(JoinSpaced(st.carry.lastNgram[1..] + [Split(Trim(line))[0]])) in Step(st, line, n).ngrams
  {
    var last := st.carry.lastNgram;
    var t := Trim(line);
    SplitAfterJoin(last[1..], t);
    var tokens := last[1..] + Split(t);
    assert Step(st, line, n).ngrams == st.ngrams + Windows(tokens, n);
    assert tokens[0..n] == last[1..] + [Split(t)[0]];
    assert WindowAt(tokens, n)(0) == Trim(JoinSpaced(last[1..] + [Split(t)[0]]));
    ImageBelowHas(WindowAt(tokens, n), |tokens| - n + 1, 0);
  }

  /** After a line with fewer than n tokens, the next non-blank line is read
      as that line's tokens followed by its own. */
  lemma ShortLineJoinsNext(st: Tokenizer, line: string, n: nat)
    requires CarryOk(st.carry, n) && st.carry.prevLine != []
    requires Trim(line) != []
    ensures Split(Prefixed(Trim(line), st.carry, n)) == Split(st.carry.prevLine) + Split(Trim(line))
  {
    SplitAtSeparator(st.carry.prevLine, ' ', Trim(line));
  }

  /** The tokens the carry puts in front of the next line: the last n-1
      tokens of a full line when n > 1, or the tokens of a pending short
      line. */
  function CarriedTokens(c: Carry, n: nat): seq<string> {
    if n > 1 && c.lastNgram != [] then c.lastNgram[1..]
    else if c.prevLine != [] then Split(c.prevLine)
    else []
  }

  /** With the carry in front, a non-blank line splits into the carried
      tokens followed by its own. */
  lemma CarriedSplit(carry: Carry, line: string, n: nat)
    requires CarryOk(carry, n) && line != []
    ensures Split(Prefixed(line, carry, n)) == CarriedTokens(carry, n) + Split(line)
  {
    if n > 1 && carry.lastNgram != [] {
      SplitAfterJoin(carry.lastNgram[1..], line);
    } else if carry.prevLine != [] {
      SplitAtSeparator(carry.prevLine, ' ', line);
    } else {
      assert [] + Split(line) == Split(line);
    }
  }

  /** A non-blank line is read as the carried tokens followed by its own.
      It adds exactly the windows of n consecutive tokens of that sequence,
      or nothing when it holds fewer than n. It then carries the last n of
      those tokens, or none. */
  lemma LineNgrams(st: Tokenizer, line: string, n: nat, tokens: seq<string>)
    requires CarryOk(st.carry, n) && Trim(line) != []
    requires tokens == CarriedTokens(st.carry, n) + Split(Trim(line))
    ensures Step(st, line, n).ngrams == st.ngrams + (if |tokens| >= n then Windows(tokens, n) else {})
    ensures Step(st, line, n).carry.lastNgram == (if |tokens| >= n then tokens[|tokens| - n..] else [])
  {
    CarriedSplit(st.carry, Trim(line), n);
    StepTokens(st, line, n, tokens);
  }

  /** Step on a non-blank line, in terms of the tokens it splits into. */
  lemma StepTokens(st: Tokenizer, line: string, n: nat, tokens: seq<string>)
    requires Trim(line) != [] && Split(Prefixed(Trim(line), st.carry, n)) == tokens
    ensures Step(st, line, n).ngrams == st.ngrams + (if |tokens| >= n then Windows(tokens, n) else {})
    ensures Step(st, line, n).carry.lastNgram == (if |tokens| >= n then tokens[|tokens| - n..] else [])
  {
    if |tokens| >= n {
      StepFull(st, line, n, tokens);
    } else {
      StepShort(st, line, n, Prefixed(Trim(line), st.carry, n));
    }
  }

  /** With n = 1 every token of a non-blank line is an n-gram, and nothing
      else is added. */
  lemma Unigrams(st: Tokenizer, line: string)
    requires CarryOk(st.carry, 1) && Trim(line) != []
    ensures Step(st, line, 1).ngrams == st.ngrams + set tok | tok in Split(Trim(line))
  {
    var tokens := Split(Trim(line));
    assert st.carry.prevLine == [];
    assert Step(st, line, 1).ngrams == st.ngrams + Windows(tokens, 1);
    UnigramWindows(tokens);
  }

  lemma UnigramWindows(tokens: seq<string>)
    requires |tokens| >= 1 && forall k :: 0 <= k < |tokens| ==> NoSpace(tokens[k])
    ensures Windows(tokens, 1) == set tok | tok in tokens
  {
    var token := (k: nat) requires k < |tokens| => tokens[k];
    forall k: nat | k < |tokens| ensures WindowAt(tokens, 1)(k) == token(k) {
      assert tokens[k..k + 1] == [tokens[k]] && [tokens[k]][..0] == [];
      assert JoinSpaced([tokens[k]]) == tokens[k] + " ";
      TrimSpacedToken(tokens[k]);
    }
    ImageBelowSame(WindowAt(tokens, 1), token, |tokens|);
    forall x ensures x in ImageBelow(token, |tokens|) <==> x in tokens {
      if x in tokens {
        var k :| 0 <= k < |tokens| && tokens[k] == x;
        ImageBelowHas(token, |tokens|, k);
      }
    }
  }
}
