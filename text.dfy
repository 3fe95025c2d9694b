/** The string helpers the source takes from the C++ and Boost libraries:
    whitespace, boost::trim, boost::algorithm::split with is_space,
    std::to_string on unsigned values and the ordering of std::string keys. */
module Text {

  /** std::isspace in the "C" locale: space, \t, \n, \v, \f, \r. */
  predicate IsSpace(c: char) {
    c == ' ' || c == '\t' || c == '\n' || c == '\r' || c as int == 11 || c as int == 12
  }

  predicate NoSpace(s: string) {
    forall i :: 0 <= i < |s| ==> !IsSpace(s[i])
  }

  predicate AllSpace(s: string) {
    forall i :: 0 <= i < |s| ==> IsSpace(s[i])
  }

  // ---------------------------------------------------------------- trimming

  /** boost::trim_left: the suffix left once leading whitespace is dropped. */
  function TrimLeft(s: string): (r: string)
    ensures |r| <= |s| && r == s[|s| - |r|..]
    ensures AllSpace(s[..|s| - |r|])
    ensures r == [] || !IsSpace(r[0])
  {
    if s != [] && IsSpace(s[0]) then
      var r := TrimLeft(s[1..]);
      assert s[..|s| - |r|] == [s[0]] + s[1..][..|s| - 1 - |r|];
      assert s[1..][|s| - 1 - |r|..] == s[|s| - |r|..];
      r
    else s
  }

  /** boost::trim_right: the prefix left once trailing whitespace is dropped. */
  function TrimRight(s: string): (r: string)
    ensures |r| <= |s| && r == s[..|r|]
    ensures AllSpace(s[|r|..])
    ensures r == [] || !IsSpace(r[|r| - 1])
  {
    if s != [] && IsSpace(s[|s| - 1]) then
      var r := TrimRight(s[..|s| - 1]);
      assert s[|r|..] == s[..|s| - 1][|r|..] + [s[|s| - 1]];
      assert s[..|s| - 1][..|r|] == s[..|r|];
      r
    else s
  }

  /** boost::trim: both ends stripped of whitespace; empty exactly for blank
      input, and otherwise starting and ending with a non-space. */
  function Trim(s: string): (r: string)
    ensures r == [] <==> AllSpace(s)
    ensures r == [] || (!IsSpace(r[0]) && !IsSpace(r[|r| - 1]))
  {
    var t := TrimRight(s);
    var r := TrimLeft(t);
    assert r == [] ==> AllSpace(s) by {
      if r == [] {
        assert t[..|t|] == t;
        assert s == t + s[|t|..];
      }
    }
    r
  }

  /** What trimming keeps is a contiguous piece of the input, and everything
      it cuts away on either side is whitespace. */
  lemma TrimInfix(s: string)
    ensures exists i :: (0 <= i <= |s| - |Trim(s)| && Trim(s) == s[i..i + |Trim(s)|]
                         && AllSpace(s[..i]) && AllSpace(s[i + |Trim(s)|..]))
  {
    var t := TrimRight(s);
    var r := TrimLeft(t);
    assert r == Trim(s);
    var i := |t| - |r|;
    assert r == s[i..i + |r|] by {
      assert t == s[..|t|] && r == t[i..];
    }
    assert AllSpace(s[..i]) by {
      assert s[..i] == t[..i];
    }
    assert AllSpace(s[i + |r|..]) by {
      assert i + |r| == |t|;
    }
  }

  // --------------------------------------------------------------- splitting

  /** boost::algorithm::split(tokens, s, is_space()) with compression off:
      every whitespace character ends a token, so adjacent separators give
      empty tokens, and the empty input gives one empty token. */
  function Split(s: string): (r: seq<string>)
    ensures |r| >= 1
    ensures forall k :: 0 <= k < |r| ==> NoSpace(r[k])
    ensures NoSpace(s) ==> r == [s]
  {
    if s == [] then [""]
    else
      var rest := Split(s[1..]);
      if IsSpace(s[0]) then [""] + rest
      else
        assert NoSpace(s) ==> rest == [s[1..]] && [s[0]] + s[1..] == s;
        [[s[0]] + rest[0]] + rest[1..]
  }

  /** The strings the source builds with `str += token + " "`: every token
      followed by one space. */
  function JoinSpaced(ts: seq<string>): string {
    if ts == [] then "" else JoinSpaced(ts[..|ts| - 1]) + ts[|ts| - 1] + " "
  }

  lemma {:induction false} JoinSpacedCons(t: string, ts: seq<string>)
    ensures JoinSpaced([t] + ts) == t + " " + JoinSpaced(ts)
    decreases |ts|
  {
    if ts != [] {
      var all := [t] + ts;
      assert all[..|all| - 1] == [t] + ts[..|ts| - 1];
      JoinSpacedCons(t, ts[..|ts| - 1]);
    }
  }

  /** Splitting a token that holds no whitespace, followed by a space, peels
      off exactly that token. */
  lemma {:induction false} SplitToken(t: string, rest: string)
    requires NoSpace(t)
    ensures Split(t + " " + rest) == [t] + Split(rest)
    decreases |t|
  {
    var s := t + " " + rest;
    if t == [] {
      assert s == [' '] + rest && s[1..] == rest;
    } else {
      assert s[1..] == t[1..] + " " + rest;
      SplitToken(t[1..], rest);
      assert [t[0]] + t[1..] == t;
    }
  }

  /** Splitting a space-joined prefix of whitespace-free tokens gives back
      those tokens, followed by the tokens of what comes after. */
  lemma {:induction false} SplitAfterJoin(ts: seq<string>, rest: string)
    requires forall k :: 0 <= k < |ts| ==> NoSpace(ts[k])
    ensures Split(JoinSpaced(ts) + rest) == ts + Split(rest)
    decreases |ts|
  {
    if ts == [] {
      assert JoinSpaced(ts) + rest == rest;
    } else {
      var tail := JoinSpaced(ts[1..]) + rest;
      assert JoinSpaced(ts) + rest == ts[0] + " " + tail by {
        JoinSpacedCons(ts[0], ts[1..]);
        assert [ts[0]] + ts[1..] == ts;
      }
      assert Split(ts[0] + " " + tail) == [ts[0]] + Split(tail) by {
        SplitToken(ts[0], tail);
      }
      assert Split(tail) == ts[1..] + Split(rest) by {
        SplitAfterJoin(ts[1..], rest);
      }
      assert [ts[0]] + ts[1..] == ts;
      AppendAssociative([ts[0]], ts[1..], Split(rest));
    }
  }

  /** Regrouping a concatenation, proved apart from SplitAfterJoin, whose
      context makes the solver slow to find it. */
  lemma AppendAssociative<T>(a: seq<T>, b: seq<T>, c: seq<T>)
    ensures a + (b + c) == (a + b) + c
  {
  }

  /** Any one whitespace character between two strings splits them apart:
      the tokens of the whole are the tokens of the left part followed by
      those of the right. */
  lemma {:induction false} SplitAtSeparator(a: string, c: char, b: string)
    requires IsSpace(c)
    ensures Split(a + [c] + b) == Split(a) + Split(b)
    decreases |a|
  {
    var s := a + [c] + b;
    if a == [] {
      assert s[0] == c && s[1..] == b;
      assert Split(s) == [""] + Split(b);
    } else {
      assert s[1..] == a[1..] + [c] + b;
      SplitAtSeparator(a[1..], c, b);
    }
  }

  /** Trimming a whitespace-free token written with its trailing space gives
      back the token. */
  lemma TrimSpacedToken(t: string)
    requires NoSpace(t)
    ensures Trim(t + " ") == t
  {
    var s := t + " ";
    assert s[..|s| - 1] == t;
    assert TrimRight(s) == t;
  }

  // ----------------------------------------------------------------- numbers

  function DigitChar(d: nat): (c: char)
    requires d < 10
    ensures '0' <= c <= '9' && c as int - '0' as int == d
  {
    ('0' as int + d) as char
  }

  predicate IsDigits(s: string) {
    forall i :: 0 <= i < |s| ==> '0' <= s[i] <= '9'
  }

  /** std::to_string on an unsigned value: decimal digits, most significant
      first, with no leading zero except for the value 0 itself. */
  function Decimal(n: nat): (s: string)
    ensures |s| >= 1 && IsDigits(s)
    ensures s[0] != '0' || s == "0"
  {
    if n < 10 then [DigitChar(n)] else Decimal(n / 10) + [DigitChar(n % 10)]
  }

  /** The value a string of decimal digits denotes. */
  function DecimalValue(s: string): nat
    requires IsDigits(s)
  {
    if s == [] then 0
    else DecimalValue(s[..|s| - 1]) * 10 + (s[|s| - 1] as int - '0' as int)
  }

  /** Decimal loses nothing: reading the digits back gives the number. */
  lemma {:induction false} DecimalRoundTrip(n: nat)
    ensures DecimalValue(Decimal(n)) == n
  {
    if n >= 10 {
      DecimalRoundTrip(n / 10);
      var s := Decimal(n);
      assert s[..|s| - 1] == Decimal(n / 10);
    }
  }

  // ---------------------------------------------------------------- ordering

  /** std::string's operator<: lexicographic on the characters, a proper
      prefix first. */
  predicate StrLess(s: string, t: string) {
    if s == [] then t != []
    else if t == [] then false
    else if s[0] != t[0] then s[0] < t[0]
    else StrLess(s[1..], t[1..])
  }

  lemma {:induction false} StrLessIrreflexive(s: string)
    ensures !StrLess(s, s)
  {
    if s != [] { StrLessIrreflexive(s[1..]); }
  }

  lemma {:induction false} StrLessTransitive(s: string, t: string, u: string)
    requires StrLess(s, t) && StrLess(t, u)
    ensures StrLess(s, u)
  {
    if s != [] && t != [] && u != [] && s[0] == t[0] && t[0] == u[0] {
      StrLessTransitive(s[1..], t[1..], u[1..]);
    }
  }

  lemma {:induction false} StrLessTotal(s: string, t: string)
    ensures s == t || StrLess(s, t) || StrLess(t, s)
  {
    if s != [] && t != [] && s[0] == t[0] {
      StrLessTotal(s[1..], t[1..]);
      assert s == [s[0]] + s[1..] && t == [t[0]] + t[1..];
    }
  }

  lemma StrLessAsymmetric(s: string, t: string)
    requires StrLess(s, t)
    ensures !StrLess(t, s)
  {
    if StrLess(t, s) {
      StrLessTransitive(s, t, s);
      StrLessIrreflexive(s);
    }
  }

  predicate IsLeast(m: string, keys: set<string>) {
    m in keys && forall k :: k in keys && k != m ==> StrLess(m, k)
  }

  /** Every finite non-empty set of strings has a least element. */
  lemma {:induction false} LeastExists(keys: set<string>)
    requires keys != {}
    ensures exists m :: IsLeast(m, keys)
    decreases keys
  {
    var x :| x in keys;
    var rest := keys - {x};
    if rest == {} {
      assert keys == {x};
      assert IsLeast(x, keys);
    } else {
      LeastExists(rest);
      var m :| IsLeast(m, rest);
      StrLessTotal(x, m);
      if StrLess(x, m) {
        forall k | k in keys && k != x ensures StrLess(x, k) {
          if k != m { StrLessTransitive(x, m, k); }
        }
        assert IsLeast(x, keys);
      } else {
        assert x != m && StrLess(m, x);
        forall k | k in keys && k != m ensures StrLess(m, k) {
          if k != x { assert k in rest; }
        }
        assert IsLeast(m, keys);
      }
    }
  }

  /** A strictly ascending sequence: the order std::map iterates its keys in. */
  ghost predicate Ascending(keys: seq<string>) {
    forall i, j :: 0 <= i < j < |keys| ==> StrLess(keys[i], keys[j])
  }

  /** The keys of a std::map in iteration order. */
  ghost function Enumerate(keys: set<string>): (r: seq<string>)
    ensures Ascending(r) && |r| == |keys|
    ensures forall k :: k in r <==> k in keys
    decreases keys
  {
    if keys == {} then []
    else
      LeastExists(keys);
      var m :| IsLeast(m, keys);
      var tail := Enumerate(keys - {m});
      assert forall j :: 0 <= j < |tail| ==> StrLess(m, tail[j]) by {
        forall j | 0 <= j < |tail| ensures StrLess(m, tail[j]) {
          assert tail[j] in keys - {m};
        }
      }
      [m] + tail
  }

  lemma SameElementsBothEmpty(xs: seq<string>, ys: seq<string>)
    requires forall k :: k in xs <==> k in ys
    ensures xs == [] <==> ys == []
  {
    if xs != [] { assert xs[0] in ys; }
    if ys != [] { assert ys[0] in xs; }
  }

  /** In an ascending sequence, the smaller of two elements comes first. */
  lemma AscendingOrder(keys: seq<string>, a: nat, b: nat)
    requires Ascending(keys) && a < |keys| && b < |keys| && StrLess(keys[a], keys[b])
    ensures a < b
  {
    if b == a {
      StrLessIrreflexive(keys[a]);
    } else if b < a {
      StrLessAsymmetric(keys[a], keys[b]);
    }
  }

  /** An ascending sequence is fixed by its elements. */
  lemma {:induction false} AscendingUnique(xs: seq<string>, ys: seq<string>)
    requires Ascending(xs) && Ascending(ys)
    requires forall k :: k in xs <==> k in ys
    ensures xs == ys
    decreases |xs|
  {
    SameElementsBothEmpty(xs, ys);
    if xs != [] {
      if xs[0] != ys[0] {
        assert ys[0] in xs;
        var i :| 0 <= i < |xs| && xs[i] == ys[0];
        assert xs[0] in ys;
        var j :| 0 <= j < |ys| && ys[j] == xs[0];
        assert StrLess(xs[0], xs[i]) && StrLess(ys[0], ys[j]);
        StrLessAsymmetric(xs[0], ys[0]);
        assert false;
      }
      forall k ensures k in xs[1..] <==> k in ys[1..] {
        if k in xs[1..] {
          var i :| 1 <= i < |xs| && xs[i] == k;
          assert StrLess(xs[0], k);
          StrLessIrreflexive(k);
          assert k in ys && k != ys[0];
          var j :| 0 <= j < |ys| && ys[j] == k;
          assert j != 0 && ys[1..][j - 1] == k;
        }
        if k in ys[1..] {
          var j :| 1 <= j < |ys| && ys[j] == k;
          assert StrLess(ys[0], k);
          StrLessIrreflexive(k);
          assert k in xs && k != xs[0];
          var i :| 0 <= i < |xs| && xs[i] == k;
          assert i != 0 && xs[1..][i - 1] == k;
        }
      }
      AscendingUnique(xs[1..], ys[1..]);
      assert xs == [xs[0]] + xs[1..] && ys == [ys[0]] + ys[1..];
    }
  }
}
