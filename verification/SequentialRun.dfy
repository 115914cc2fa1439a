/**
 The longest run of consecutive requests whose paths differ only in one trailing number that advances by a constant
 step, as a scraper walking through ids makes them. Paths are ASCII text on one line.
 */
module SequentialRun {
  import opened Text
  import opened Wrappers

  // -- Paths ---------------------------------------------------------------------------------------

  /** The three groups of `^(.*?)(\d+)(\D*)$`. */
  datatype Groups = Groups(before: string, digits: string, after: string)

  ghost predicate AllDigits(s: string) {
    forall i | 0 <= i < |s| :: IsDigit(s[i])
  }

  ghost predicate NoDigits(s: string) {
    forall i | 0 <= i < |s| :: !IsDigit(s[i])
  }

  ghost predicate HasDigit(s: string) {
    exists i | 0 <= i < |s| :: IsDigit(s[i])
  }

  /** One way for the expression to match. */
  ghost predicate Matches(s: string, g: Groups) {
    s == g.before + g.digits + g.after && g.digits != "" && AllDigits(g.digits) && NoDigits(g.after)
  }

  function TrailingNonDigits(s: string): (n: nat)
    ensures n <= |s| && (forall i | |s| - n <= i < |s| :: !IsDigit(s[i]))
    ensures n < |s| ==> IsDigit(s[|s| - n - 1])
  {
    if s == "" || IsDigit(s[|s| - 1]) then 0 else 1 + TrailingNonDigits(s[..|s| - 1])
  }

  function TrailingDigits(s: string): (n: nat)
    ensures n <= |s| && (forall i | |s| - n <= i < |s| :: IsDigit(s[i]))
    ensures n < |s| ==> !IsDigit(s[|s| - n - 1])
  {
    if s == "" || !IsDigit(s[|s| - 1]) then 0 else 1 + TrailingDigits(s[..|s| - 1])
  }

  function Match(s: string): (r: Option<Groups>)
  {
    var head := s[..|s| - TrailingNonDigits(s)];
    var n := TrailingDigits(head);
    if n == 0 then None
    else Some(Groups(head[..|head| - n], head[|head| - n..], s[|head|..]))
  }

  /** No match has a shorter first group than the one found. */
  lemma MatchIsShortest(s: string, g: Groups)
    requires Matches(s, g)
    ensures Match(s).Some? && |Match(s).value.before| <= |g.before| && Match(s).value.after == g.after
  {
    var k := |g.before| + |g.digits|;
    assert s[k - 1] == g.digits[|g.digits| - 1];
    assert s[k..] == g.after;
    var head := s[..|s| - TrailingNonDigits(s)];
    forall i | k <= i < |s| ensures !IsDigit(s[i]) {
      assert s[i] == g.after[i - k];
    }
    assert |head| == k;
    forall i | |g.before| <= i < k ensures IsDigit(head[i]) {
      assert head[i] == g.digits[i - |g.before|];
    }
  }

  lemma GroupsMatch(s: string, head: string, m: nat)
    requires 0 < m <= |head| <= |s| && head == s[..|head|] && (forall i | |head| <= i < |s| :: !IsDigit(s[i]))
    requires forall i | |head| - m <= i < |head| :: IsDigit(head[i])
    ensures Matches(s, Groups(head[..|head| - m], head[|head| - m..], s[|head|..]))
  {
    hide IsDigit;
    var k := |head|;
    assert head == head[..k - m] + head[k - m..];
    assert s == head + s[k..];
    var after := s[k..];
    forall i | 0 <= i < |after| ensures !IsDigit(after[i]) {
      assert after[i] == s[k + i];
    }
  }

  lemma MatchMatches(s: string)
    ensures Match(s).Some? ==> Matches(s, Match(s).value)
  {
    hide TrailingDigits, TrailingNonDigits, IsDigit, Matches;
    var head := s[..|s| - TrailingNonDigits(s)];
    if TrailingDigits(head) > 0 {
      GroupsMatch(s, head, TrailingDigits(head));
    }
  }

  /** The expression matches exactly if there is a digit. */
  lemma MatchNeedsDigit(s: string)
    ensures Match(s).Some? <==> HasDigit(s)
  {
    var head := s[..|s| - TrailingNonDigits(s)];
    if |head| > 0 {
      assert IsDigit(s[|head| - 1]) && head[|head| - 1] == s[|head| - 1];
    }
  }

  /** The parts of a path around its number, written as one key, and the number. */
  datatype Numbered = Numbered(key: string, number: nat)

  lemma {:induction false} DigitsAreNumber(s: string)
    requires s != "" && AllDigits(s)
    ensures Digits(s).Some?
  {
    if |s| > 1 {
      assert s[|s| - 2] != '_';
      DigitsAreNumber(s[..|s| - 1]);
    }
  }

  function Read(path: string): Option<Numbered> {
    match Match(Split(path, '?')[0])
    case None => None
    case Some(g) =>
      match Digits(g.digits)
      case None => None
      case Some(n) => Some(Numbered(g.before + "#" + g.after, n))
  }

  /** A path has a number exactly if there is a digit before its query. */
  lemma ReadsEveryNumber(path: string)
    ensures Read(path).Some? <==> HasDigit(Split(path, '?')[0])
  {
    hide Match, Digits, Split, HasDigit;
    var s := Split(path, '?')[0];
    MatchNeedsDigit(s);
    MatchMatches(s);
    if Match(s).Some? {
      DigitsAreNumber(Match(s).value.digits);
    }
  }

  /** Equal keys mean equal surroundings, in paths without a fragment. */
  lemma KeysTellSurroundings(a: string, b: string, x: string, y: string)
    requires a + "#" + b == x + "#" + y
    requires forall i | 0 <= i < |a| :: a[i] != '#'
    requires forall i | 0 <= i < |x| :: x[i] != '#'
    ensures a == x && b == y
  {
    var s, t := a + "#" + b, x + "#" + y;
    assert s[|a|] == '#' && t[|x|] == '#';
    forall i | 0 <= i < |a| ensures s[i] != '#' {
      assert s[i] == a[i];
    }
    forall i | 0 <= i < |x| ensures t[i] != '#' {
      assert t[i] == x[i];
    }
    assert s[..|a|] == a && t[..|x|] == x;
    assert s[|a| + 1..] == b && t[|x| + 1..] == y;
  }

  lemma NonDigitsAre(head: string, after: string)
    requires NoDigits(after) && head != "" && IsDigit(head[|head| - 1])
    ensures TrailingNonDigits(head + after) == |after|
  {
    hide IsDigit, TrailingNonDigits;
    var s := head + after;
    assert forall i | 0 <= i < |after| :: s[|head| + i] == after[i];
    assert s[|head| - 1] == head[|head| - 1];
  }

  lemma DigitsAre(before: string, digits: string)
    requires AllDigits(digits) && (before != "" ==> !IsDigit(before[|before| - 1]))
    ensures TrailingDigits(before + digits) == |digits|
  {
    hide IsDigit, TrailingDigits;
    var s := before + digits;
    assert forall i | 0 <= i < |digits| :: s[|before| + i] == digits[i];
    assert before != "" ==> s[|before| - 1] == before[|before| - 1];
  }

  lemma MatchIsUnique(before: string, digits: string, after: string)
    requires digits != "" && AllDigits(digits) && NoDigits(after)
    requires before != "" ==> !IsDigit(before[|before| - 1])
    ensures Match(before + digits + after) == Some(Groups(before, digits, after))
  {
    hide TrailingDigits, TrailingNonDigits, IsDigit;
    var head := before + digits;
    assert head[|head| - 1] == digits[|digits| - 1];
    NonDigitsAre(head, after);
    DigitsAre(before, digits);
    assert (head + after)[..|head|] == head && (head + after)[|head|..] == after;
    assert head[..|before|] == before && head[|before|..] == digits;
  }

  lemma BeforeQuery(bare: string, query: string)
    requires forall i | 0 <= i < |bare| :: bare[i] != '?'
    ensures Split(bare, '?')[0] == bare && Split(bare + "?" + query, '?')[0] == bare
  {
    SplitNothing(bare, '?');
    SplitFirst(bare, '?', query);
  }

  /** A number written between other text is read back, with that text as its key; a query changes nothing. */
  lemma ReadsWhatIsWritten(before: string, n: nat, after: string, query: string)
    requires NoDigits(after) && (before != "" ==> !IsDigit(before[|before| - 1]))
    requires forall i | 0 <= i < |before| :: before[i] != '?'
    requires forall i | 0 <= i < |after| :: after[i] != '?'
    ensures
      var bare := before + Decimal(n) + after;
      Read(bare) == Read(bare + "?" + query) == Some(Numbered(before + "#" + after, n))
  {
    hide Split, Match, Digits, Decimal;
    var bare := before + Decimal(n) + after;
    DecimalIsDigits(n);
    DigitsOfDecimal(n);
    MatchIsUnique(before, Decimal(n), after);
    forall i | 0 <= i < |bare| ensures bare[i] != '?' {
      if |before| <= i < |before| + |Decimal(n)| {
        assert bare[i] == Decimal(n)[i - |before|];
      }
    }
    BeforeQuery(bare, query);
  }

  /** Two readings with the same key have the same text around their numbers, in paths without a fragment. */
  lemma SameKeySamePlace(p: string, q: string)
    requires Read(p).Some? && Read(q).Some? && Read(p).value.key == Read(q).value.key
    requires forall i | 0 <= i < |Split(p, '?')[0]| :: Split(p, '?')[0][i] != '#'
    requires forall i | 0 <= i < |Split(q, '?')[0]| :: Split(q, '?')[0][i] != '#'
    ensures
      var g, h := Match(Split(p, '?')[0]).value, Match(Split(q, '?')[0]).value;
      && g.before == h.before && g.after == h.after
      && Digits(g.digits) == Some(Read(p).value.number) && Digits(h.digits) == Some(Read(q).value.number)
  {
    hide Match, Digits, Split;
    var s, t := Split(p, '?')[0], Split(q, '?')[0];
    MatchMatches(s);
    MatchMatches(t);
    var g, h := Match(s).value, Match(t).value;
    forall i | 0 <= i < |g.before| ensures g.before[i] != '#' {
      assert s[i] == g.before[i];
    }
    forall i | 0 <= i < |h.before| ensures h.before[i] != '#' {
      assert t[i] == h.before[i];
    }
    KeysTellSurroundings(g.before, g.after, h.before, h.after);
  }

  // -- Runs ----------------------------------------------------------------------------------------

  function Readings(paths: seq<string>): (r: seq<Option<Numbered>>)
    ensures |r| == |paths|
  {
    seq(|paths|, i requires 0 <= i < |paths| => Read(paths[i]))
  }

  predicate Successive(a: Option<Numbered>, b: Option<Numbered>, d: int) {
    a.Some? && b.Some? && a.value.key == b.value.key && b.value.number - a.value.number == d
  }

  /** From the request i up to j, each number is d more than the one before, at the same place in the same path. */
  ghost predicate Progression(rs: seq<Option<Numbered>>, i: int, j: int, d: int) {
    0 <= i < j <= |rs| && d != 0 && forall k | i < k < j :: Successive(rs[k - 1], rs[k], d)
  }

  lemma {:induction false} ProgressionFormula(rs: seq<Option<Numbered>>, i: nat, j: nat, d: int, k: nat)
    requires Progression(rs, i, j, d) && i < k < j
    ensures
      && rs[i].Some? && rs[k].Some? && rs[k].value.key == rs[i].value.key
      && rs[k].value.number == rs[i].value.number + (k - i) * d
  {
    assert Successive(rs[k - 1], rs[k], d);
    if k - 1 > i {
      ProgressionFormula(rs, i, j, d, k - 1);
      assert (k - i) * d == (k - 1 - i) * d + d;
    }
  }

  ghost predicate HasProgression(rs: seq<Option<Numbered>>, n: nat) {
    exists i, j, d :: Progression(rs, i, j, d) && j - i == n
  }

  /** `best` is the greatest length of a progression, where a single request counts as one. */
  ghost predicate IsLongest(rs: seq<Option<Numbered>>, best: nat) {
    && best >= 1
    && (best > 1 ==> HasProgression(rs, best))
    && (forall i, j, d | Progression(rs, i, j, d) :: j - i <= best)
  }

  /** What the loop knows after some requests: the length of the longest progression that ends there. */
  ghost predicate EndsWith(rs: seq<Option<Numbered>>, run: nat, step: Option<int>) {
    && run >= 1
    && (step.Some? <==> run > 1)
    && (run > 1 ==> run <= |rs| && Progression(rs, |rs| - run, |rs|, step.value))
    && (forall i, d | Progression(rs, i, |rs|, d) :: |rs| - i <= run)
  }

  /** How far the number advances, if only the number changes. */
  function Advance(prev: Option<Numbered>, cur: Option<Numbered>): (r: Option<int>)
    ensures forall d | d != 0 :: r == Some(d) <==> Successive(prev, cur, d)
  {
    if cur.Some? && prev.Some? && cur.value.key == prev.value.key && cur.value.number != prev.value.number
    then Some(cur.value.number - prev.value.number) else None
  }

  function Last(rs: seq<Option<Numbered>>): Option<Numbered> {
    if rs == [] then None else rs[|rs| - 1]
  }

  /** A progression that ends with the newest request and holds at least two takes its step from the last two. */
  lemma TakesLastStep(rs: seq<Option<Numbered>>, cur: Option<Numbered>, i: nat, d: int)
    requires Progression(rs + [cur], i, |rs| + 1, d) && i < |rs|
    ensures Advance(Last(rs), cur) == Some(d)
    ensures Progression(rs, i, |rs|, d)
  {
    var all := rs + [cur];
    assert all[|rs|] == cur && all[|rs| - 1] == rs[|rs| - 1];
    assert Successive(all[|rs| - 1], all[|rs|], d);
    SameBefore(rs, cur, i, |rs|, d);
  }

  lemma NextEndsWith(rs: seq<Option<Numbered>>, run: nat, step: Option<int>, cur: Option<Numbered>)
    requires EndsWith(rs, run, step)
    ensures
      var d := Advance(Last(rs), cur);
      EndsWith(rs + [cur], if d.None? then 1 else if step == d then run + 1 else 2, d)
  {
    var all := rs + [cur];
    var d := Advance(Last(rs), cur);
    var next := if d.None? then 1 else if step == d then run + 1 else 2;
    forall i, e | Progression(all, i, |all|, e) ensures |all| - i <= next {
      if i < |rs| {
        TakesLastStep(rs, cur, i, e);
        assert |rs| - i <= run;
        if step != d && i < |rs| - 1 {
          SameStep(rs, i, e, run, step);
        }
      }
    }
    if d.Some? {
      Extend(rs, cur, if step == d then run else 1, d.value);
    }
  }

  lemma SameStep(rs: seq<Option<Numbered>>, i: nat, e: int, run: nat, step: Option<int>)
    requires EndsWith(rs, run, step) && Progression(rs, i, |rs|, e) && i < |rs| - 1
    ensures step == Some(e)
  {
    var k := |rs| - 1;
    assert Successive(rs[k - 1], rs[k], e);
  }

  lemma Extend(rs: seq<Option<Numbered>>, cur: Option<Numbered>, n: nat, d: int)
    requires Advance(Last(rs), cur) == Some(d) && d != 0 && 1 <= n <= |rs|
    requires n > 1 ==> Progression(rs, |rs| - n, |rs|, d)
    ensures Progression(rs + [cur], |rs| - n, |rs| + 1, d)
  {
    var all := rs + [cur];
    forall k | |rs| - n < k <= |rs| ensures Successive(all[k - 1], all[k], d) {
      if k < |rs| {
        assert all[k - 1] == rs[k - 1] && all[k] == rs[k];
      }
    }
  }

  lemma NextIsLongest(rs: seq<Option<Numbered>>, best: nat, run: nat, step: Option<int>, cur: Option<Numbered>)
    requires IsLongest(rs, best) && EndsWith(rs + [cur], run, step)
    ensures IsLongest(rs + [cur], if run > best then run else best)
  {
    var all := rs + [cur];
    var next := if run > best then run else best;
    forall i, j, d | Progression(all, i, j, d) ensures j - i <= next {
      if j <= |rs| {
        SameBefore(rs, cur, i, j, d);
      }
    }
    if run > best {
      assert Progression(all, |all| - run, |all|, step.value);
    } else if best > 1 {
      var i, j, d :| Progression(rs, i, j, d) && j - i == best;
      SameBefore(rs, cur, i, j, d);
    }
  }

  lemma SameBefore(rs: seq<Option<Numbered>>, cur: Option<Numbered>, i: nat, j: nat, d: int)
    requires j <= |rs|
    ensures Progression(rs, i, j, d) <==> Progression(rs + [cur], i, j, d)
  {
    forall k | 0 <= k < |rs| ensures (rs + [cur])[k] == rs[k] {
    }
  }

  /** The result is exactly the greatest length of a progression of consecutive requests; 1 where there is none. */
  method LongestSequentialRun(paths: seq<string>) returns (best: nat)
    ensures IsLongest(Readings(paths), best)
  {
    hide Read, Progression, IsLongest, EndsWith;
    best := 1;
    var run := 1;
    var prev: Option<Numbered> := None;
    var step: Option<int> := None;
    NothingYet();
    for i := 0 to |paths|
      invariant IsLongest(Readings(paths[..i]), best) && EndsWith(Readings(paths[..i]), run, step)
      invariant prev == Last(Readings(paths[..i]))
    {
      ghost var rs := Readings(paths[..i]);
      var cur := Read(paths[i]);
      NextEndsWith(rs, run, step, cur);
      if cur.Some? && prev.Some? && cur.value.key == prev.value.key && cur.value.number != prev.value.number {
        var d := cur.value.number - prev.value.number;
        if step == None || Some(d) == step {
          run := if step == None then 2 else run + 1;
        } else {
          run := 2;
        }
        step := Some(d);
      } else {
        run, step := 1, None;
      }
      NextIsLongest(rs, best, run, step, cur);
      best := if run > best then run else best;
      prev := cur;
      assert paths[..i + 1][..i] == paths[..i];
      assert Readings(paths[..i + 1]) == rs + [cur];
    }
    assert paths[..|paths|] == paths;
  }

  lemma NothingYet()
    ensures IsLongest([], 1) && EndsWith([], 1, None)
  {
  }

}
