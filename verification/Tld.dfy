/** tldregistry.cpp: the registry suffix of a domain, looked up in the compiled rules, and the domain
    cut down to a number of labels in front of that suffix. */
module Tld {
  import opened Common
  import opened DafsaGraph
  import opened DafsaLookup
  import opened DafsaCompile

  const DOT := 46
  const FOUND := 0  // kDafsaFound
  /** Positions are `size_t`. */
  const WRAP := 0x1_0000_0000_0000_0000
  const NPOS := 0xFFFF_FFFF_FFFF_FFFF

  /** `size_t` arithmetic on a sum or difference of two positions. */
  function Wrapped(x: int): (p: nat)
    requires -WRAP <= x < 2 * WRAP
    ensures p < WRAP
  {
    if x < 0 then x + WRAP else if x < WRAP then x else x - WRAP
  }

  // The rules

  /** What the bytes were compiled from. */
  datatype Rules = Rules(words: seq<Word>, g: Dafsa, offsets: map<nat, nat>)

  ghost predicate FromRules(graph: seq<int>, r: Rules) {
    Searchable(r.g, r.offsets, graph) && SpellsWords(r.g, r.words) && DistinctKeys(r.words)
  }

  ghost predicate IsRuleAt(r: Rules, domain: Word, k: nat) {
    k < |r.words| && |r.words[k]| > 0 && Key(r.words[k]) == domain && Value(r.words[k]) == FOUND
  }

  /** The domain is listed, as a plain rule. */
  ghost predicate IsRule(r: Rules, domain: Word) {
    exists k :: IsRuleAt(r, domain, k)
  }

  method IsTld(domain: Word, graph: seq<int>, ghost r: Rules) returns (found: bool)
    requires FromRules(graph, r)
    ensures found <==> IsRule(r, domain)
  {
    var value := LookupStringInFixedSet(graph, domain, r.g, r.offsets);
    FoundIsListed(r.g, r.words, domain, value);
    if k: nat :| IsRuleAt(r, domain, k) {
      OneAnswer(r.words, domain, value, k);
    }
    if value == FOUND {
      ghost var k: nat :| k < |r.words| && |r.words[k]| > 0 && Key(r.words[k]) == domain && Value(r.words[k]) == value;
      assert IsRuleAt(r, domain, k);
    }
    found := value == FOUND;
  }

  /** How the registry writes its rules: the last character says what kind of rule it is. */
  const PLAIN_RULE := '0'
  const EXCEPTION_RULE := '1'
  const WILDCARD_RULE := '2'
  const PRIVATE_RULE := '4'

  /** A domain that is listed with a digit is a rule iff the digit is zero: exceptions, wildcards and private
      rules are none, and neither is a combination of them. */
  lemma RulesByDigit(r: Rules, k: nat)
    requires DistinctKeys(r.words) && k < |r.words| && |r.words[k]| > 0
    requires '0' as int <= r.words[k][|r.words[k]| - 1] <= '9' as int
    ensures var w := r.words[k];
            var domain, digit := w[..|w| - 1], w[|w| - 1];
            && (IsRule(r, domain) <==> digit == PLAIN_RULE as int)
            && (digit in {EXCEPTION_RULE as int, WILDCARD_RULE as int, PRIVATE_RULE as int} ==> !IsRule(r, domain))
  {
    var w := r.words[k];
    var domain := w[..|w| - 1];
    assert Key(w) == domain;
    if IsRule(r, domain) {
      var j: nat :| IsRuleAt(r, domain, j);
      assert j == k;
    }
    if w[|w| - 1] == '0' as int {
      assert IsRuleAt(r, domain, k);
    }
  }

  /** And a domain that is not listed is no rule. */
  lemma UnlistedIsNoRule(r: Rules, domain: Word)
    requires forall k :: 0 <= k < |r.words| && |r.words[k]| > 0 ==> r.words[k][..|r.words[k]| - 1] != domain
    ensures !IsRule(r, domain)
  {
  }

  // Labels

  /** A label starts at `i`. */
  predicate Aligned(d: Word, i: nat) {
    i <= |d| && (i == 0 || d[i - 1] == '.' as int)
  }

  function Dots(d: Word): nat {
    if d == [] then 0 else Dots(d[1..]) + if d[0] == '.' as int then 1 else 0
  }

  lemma {:induction false} DotsAppend(a: Word, b: Word)
    ensures Dots(a + b) == Dots(a) + Dots(b)
  {
    if a == [] {
      assert a + b == b;
    } else {
      assert (a + b)[1..] == a[1..] + b;
      DotsAppend(a[1..], b);
    }
  }

  lemma {:induction false} NoDots(d: Word)
    requires forall i :: 0 <= i < |d| ==> d[i] != DOT
    ensures Dots(d) == 0
  {
    if d != [] {
      NoDots(d[1..]);
    }
  }

  /** A position where a label starts and a rule matches to the end. */
  ghost predicate RuleFrom(r: Rules, d: Word, i: nat) {
    Aligned(d, i) && i < |d| && IsRule(r, d[i..])
  }

  /** The longest label-aligned suffix that is a rule starts at `c`. */
  ghost predicate LongestRule(r: Rules, d: Word, c: nat) {
    RuleFrom(r, d, c) && forall i :: RuleFrom(r, d, i) ==> c <= i
  }

  method Find(d: Word, i: nat) returns (pos: Option<nat>)
    requires i <= |d|
    ensures match pos
            case Some(p) => i <= p < |d| && d[p] == DOT && forall j :: i <= j < p ==> d[j] != DOT
            case None => forall j :: i <= j < |d| ==> d[j] != DOT
  {
    var p := i;
    while p < |d| && d[p] != DOT
      invariant i <= p <= |d| && forall j :: i <= j < p ==> d[j] != DOT
    {
      p := p + 1;
    }
    pos := if p < |d| then Some(p) else None;
  }

  /** The longest suffix at a label boundary that is a rule, if there is one. */
  method GetTld(domain: Word, graph: seq<int>, ghost r: Rules) returns (tld: Option<Word>)
    requires FromRules(graph, r)
    ensures match tld
            case Some(t) => 0 < |t| <= |domain| && t == domain[|domain| - |t|..] && LongestRule(r, domain, |domain| - |t|)
            case None => forall i :: !RuleFrom(r, domain, i)
  {
    var rest: Word, i: nat := domain, 0;
    while rest != []
      invariant Aligned(domain, i) && rest == domain[i..] && forall j :: RuleFrom(r, domain, j) ==> i <= j
      decreases |rest|
    {
      var found := IsTld(rest, graph, r);
      if found {
        assert RuleFrom(r, domain, i);
        return Some(rest);
      }
      var pos := Find(domain, i);
      if pos.None? {
        assert forall j :: RuleFrom(r, domain, j) ==> j == i;
        return None;
      }
      forall j | RuleFrom(r, domain, j) ensures pos.value + 1 <= j {
        assert j != i;
        assert domain[j - 1] == DOT;
      }
      i := pos.value + 1;
      rest := domain[i..];
    }
    tld := None;
  }

  // Cutting a domain down

  function StripFront(d: Word): Word {
    if d != [] && d[0] == DOT then StripFront(d[1..]) else d
  }

  function StripBack(d: Word): Word {
    if d != [] && d[|d| - 1] == DOT then StripBack(d[..|d| - 1]) else d
  }

  function Strip(d: Word): Word {
    StripBack(StripFront(d))
  }

  lemma {:induction false} StripFrontMeans(d: Word)
    ensures var s := StripFront(d);
            && (s == [] || s[0] != DOT) && |s| <= |d| && d[|d| - |s|..] == s
            && forall i :: 0 <= i < |d| - |s| ==> d[i] == DOT
  {
    if d != [] && d[0] == DOT {
      StripFrontMeans(d[1..]);
    }
  }

  lemma {:induction false} StripBackMeans(d: Word)
    ensures var s := StripBack(d);
            && (s == [] || s[|s| - 1] != DOT) && |s| <= |d| && d[..|s|] == s
            && forall i :: |s| <= i < |d| ==> d[i] == DOT
  {
    if d != [] && d[|d| - 1] == DOT {
      StripBackMeans(d[..|d| - 1]);
    }
  }

  /** Only dots go, and no dot is left at either end. */
  lemma StripMeans(d: Word) returns (a: nat, b: nat)
    ensures a <= b <= |d| && Strip(d) == d[a..b]
    ensures forall i :: 0 <= i < a || b <= i < |d| ==> d[i] == DOT
    ensures a < b ==> d[a] != DOT && d[b - 1] != DOT
  {
    var f := StripFront(d);
    StripFrontMeans(d);
    StripBackMeans(f);
    a := |d| - |f|;
    b := a + |Strip(d)|;
    assert Strip(d) == f[..b - a];
    forall i | b <= i < |d| ensures d[i] == DOT {
      assert d[i] == f[i - a];
    }
  }

  /** `rfind('.', pos)`. */
  method RFind(d: Word, pos: nat) returns (p: nat)
    requires |d| < NPOS && pos < WRAP
    ensures p == NPOS || (p < |d| && p <= pos && d[p] == DOT)
    ensures forall j :: 0 <= j < |d| && j <= pos && (p == NPOS || p < j) ==> d[j] != DOT
  {
    if d == [] {
      return NPOS;
    }
    var i: int := if pos < |d| then pos else |d| - 1;
    while i >= 0 && d[i] != DOT
      invariant -1 <= i < |d| && i <= pos && forall j :: i < j < |d| && j <= pos ==> d[j] != DOT
    {
      i := i - 1;
    }
    p := if i >= 0 then i else NPOS;
  }

  /** The part of `d` in front of `c`, cut down to its last labels: `n` of them, or all there are. Each
      label there is followed by its dot. */
  ghost predicate KeepsLabels(d: Word, c: nat, n: nat, i: nat)
    requires c <= |d|
  {
    i <= c && Aligned(d, i) && Dots(d[i..c]) == Min(n, Dots(d[..c]))
  }

  lemma DotsSplit(d: Word, i: nat, j: nat, k: nat)
    requires i <= j <= k <= |d|
    ensures Dots(d[i..k]) == Dots(d[i..j]) + Dots(d[j..k])
  {
    assert d[i..k] == d[i..j] + d[j..k];
    DotsAppend(d[i..j], d[j..k]);
  }

  lemma AllLabels(d: Word, c: nat, n: nat)
    requires c <= |d| && Dots(d[..c]) <= n
    ensures KeepsLabels(d, c, n, 0)
  {
  }

  /** One label further to the front. */
  lemma OneLabelMore(d: Word, c: nat, b: nat, p: nat)
    requires p < b <= c <= |d| && Aligned(d, b) && d[p] == DOT && b - 1 > p && forall j :: p < j < b - 1 ==> d[j] != DOT
    ensures Dots(d[p + 1..c]) == 1 + Dots(d[b..c])
  {
    DotsSplit(d, p + 1, b, c);
    DotsSplit(d, p + 1, b - 1, b);
    NoDots(d[p + 1..b - 1]);
    assert d[b - 1..b] == [DOT];
    assert Dots([DOT]) == 1 + Dots([DOT][1..]);
  }

  lemma OnlyLabel(d: Word, c: nat, b: nat)
    requires 0 < b <= c <= |d| && Aligned(d, b) && forall j :: 0 <= j < b - 1 ==> d[j] != DOT
    ensures Dots(d[..c]) == 1 + Dots(d[b..c])
  {
    assert d[..c] == d[0..c];
    DotsSplit(d, 0, b, c);
    DotsSplit(d, 0, b - 1, b);
    NoDots(d[0..b - 1]);
    assert d[b - 1..b] == [DOT];
    assert Dots([DOT]) == 1 + Dots([DOT][1..]);
  }

  /** The last label starts at `c`, behind a dot. */
  ghost predicate LastLabel(d: Word, c: nat) {
    0 < c && Aligned(d, c) && forall j :: c <= j < |d| ==> d[j] != DOT
  }

  /** The loop over the labels, from the character in front of the dot in front of the suffix. A suffix
      that is the whole domain has no such character: then the position has wrapped around, and the
      first search starts from the end. */
  method CutLabels(d: Word, from: nat, n: nat) returns (rest: Word, ghost c: nat, ghost i: nat)
    requires |d| < NPOS && (d != [] ==> d[0] != DOT)
    requires from == WRAP - 2 || (from + 2 <= |d| && Aligned(d, from + 2))
    ensures i <= |d| && rest == d[i..]
    ensures from != WRAP - 2 ==> c == from + 2 && KeepsLabels(d, c, n, i)
    ensures from == WRAP - 2 && (n == 0 || Dots(d) == 0) ==> i == 0
    ensures from == WRAP - 2 && n > 0 && Dots(d) > 0 ==> LastLabel(d, c) && KeepsLabels(d, c, n - 1, i)
  {
    var pos: nat, k: nat := from, n;
    ghost var m: nat := n;
    c := if from == WRAP - 2 then 0 else from + 2;
    assert d[c..c] == [];
    while k > 0
      invariant k <= n && Cutting(d, from, n, pos, k, c, m)
    {
      ghost var b := pos + 2;
      pos := RFind(d, pos);
      if pos == NPOS {
        NoneLeft(d, from, n, b - 2, k, c, m);
        return d, c, 0;
      }
      NextLabel(d, from, n, b - 2, k, c, m, pos);
      if c == 0 {
        c, m := pos + 1, n - 1;
      }
      pos := Wrapped(pos - 1);
      k := k - 1;
    }
    rest := d[Wrapped(pos + 2)..];
    i := Wrapped(pos + 2);
    EnoughCut(d, from, n, pos, c, m);
  }

  /** The state of the loop. Once a position in front of the suffix is known, `m` labels are wanted in
      front of `c`, and all but `k` are there from `pos + 2` on. */
  ghost predicate Cutting(d: Word, from: nat, n: nat, pos: nat, k: nat, c: nat, m: nat) {
    if c == 0 then from == WRAP - 2 && pos == from && k == n && m == n
    else
      && pos + 2 <= c <= |d| && Aligned(d, pos + 2) && Aligned(d, c) && Dots(d[pos + 2..c]) + k == m
      && if from == WRAP - 2 then LastLabel(d, c) && m + 1 == n else c == from + 2 && m == n
  }

  lemma NoneLeft(d: Word, from: nat, n: nat, pos: nat, k: nat, c: nat, m: nat)
    requires Cutting(d, from, n, pos, k, c, m) && k > 0 && |d| < NPOS
    requires forall j :: 0 <= j < |d| && j <= pos ==> d[j] != DOT
    ensures c == 0 ==> Dots(d) == 0
    ensures c > 0 ==> c <= |d| && KeepsLabels(d, c, m, 0) && Dots(d) > 0
  {
    if c == 0 {
      NoDots(d);
    } else {
      OnlyLabel(d, c, pos + 2);
      AllLabels(d, c, m);
      DotsWithin(d, c);
    }
  }

  lemma NextLabel(d: Word, from: nat, n: nat, pos: nat, k: nat, c: nat, m: nat, p: nat)
    requires Cutting(d, from, n, pos, k, c, m) && k > 0 && |d| < NPOS && d != [] && d[0] != DOT
    requires p < |d| && p <= pos && d[p] == DOT && forall j :: p < j < |d| && j <= pos ==> d[j] != DOT
    ensures p >= 1 && Dots(d) > 0
    ensures if c == 0 then Cutting(d, from, n, p - 1, k - 1, p + 1, n - 1) else Cutting(d, from, n, p - 1, k - 1, c, m)
  {
    DotsWithin(d, p + 1);
    if c == 0 {
      FirstLabel(d, from, n, p);
    } else {
      OneLabelMore(d, c, pos + 2, p);
    }
  }

  lemma FirstLabel(d: Word, from: nat, n: nat, p: nat)
    requires from == WRAP - 2 && n > 0 && 1 <= p < |d| && d[p] == DOT && forall j :: p < j < |d| ==> d[j] != DOT
    ensures Cutting(d, from, n, p - 1, n - 1, p + 1, n - 1)
  {
    assert d[p + 1..p + 1] == [];
  }

  lemma EnoughCut(d: Word, from: nat, n: nat, pos: nat, c: nat, m: nat)
    requires Cutting(d, from, n, pos, 0, c, m) && |d| < NPOS
    ensures c == 0 ==> Wrapped(pos + 2) == 0 && n == 0
    ensures c > 0 ==> c <= |d| && Wrapped(pos + 2) == pos + 2 && KeepsLabels(d, c, m, pos + 2) && Dots(d[..c]) <= Dots(d)
    ensures c > 0 && from == WRAP - 2 ==> Dots(d) > 0
  {
    if c > 0 {
      assert d[..c] == d[0..c];
      DotsSplit(d, 0, pos + 2, c);
      DotsWithin(d, c);
    }
  }

  lemma DotsWithin(d: Word, c: nat)
    requires c <= |d|
    ensures Dots(d[..c]) <= Dots(d)
    ensures c > 0 && d[c - 1] == DOT ==> Dots(d) > 0
  {
    assert d == d[..c] + d[c..];
    DotsAppend(d[..c], d[c..]);
    if c > 0 && d[c - 1] == DOT {
      assert d[..c] == d[..c - 1] + [DOT];
      DotsAppend(d[..c - 1], [DOT]);
      assert Dots([DOT]) == 1 + Dots([DOT][1..]);
    }
  }

  /** Where the registry suffix of a domain starts: the longest rule, or else the last label. */
  ghost predicate Suffix(r: Rules, d: Word, c: nat) {
    LongestRule(r, d, c) || ((forall i :: !RuleFrom(r, d, i)) && if Dots(d) == 0 then c == 0 else LastLabel(d, c))
  }

  /** The suffix and the nearest `n` labels in front of it, or as many as there are. */
  ghost predicate Reduced(r: Rules, d: Word, n: nat, rest: Word) {
    exists c: nat, i: nat :: c <= |d| && Suffix(r, d, c) && KeepsLabels(d, c, n, i) && rest == d[i..]
  }

  lemma WholeReduced(r: Rules, d: Word, n: nat)
    requires Suffix(r, d, 0)
    ensures Reduced(r, d, n, d)
  {
    assert d[0..0] == [] && d[..0] == [];
    assert KeepsLabels(d, 0, n, 0);
    assert d[0..] == d;
  }

  lemma OnlyWholeReduced(r: Rules, d: Word, n: nat, rest: Word)
    requires RuleFrom(r, d, 0) && Reduced(r, d, n, rest)
    ensures rest == d
  {
    var c: nat, i: nat :| c <= |d| && Suffix(r, d, c) && KeepsLabels(d, c, n, i) && rest == d[i..];
    assert c <= 0;
  }

  /** All labels in front of the last one are kept iff there are no more of them than wanted. */
  lemma AllKept(d: Word, c: nat, m: nat, i: nat)
    requires LastLabel(d, c) && KeepsLabels(d, c, m, i)
    ensures i == 0 <==> Dots(d) <= m
  {
    assert d == d[..c] + d[c..] && d[..c] == d[0..c];
    DotsAppend(d[..c], d[c..]);
    NoDots(d[c..]);
    DotsSplit(d, 0, i, c);
    if i > 0 {
      assert d[0..i] == d[..i];
      DotsWithin(d[..i], i);
      assert d[..i][i - 1] == DOT;
    } else {
      assert d[0..0] == [];
    }
  }

  lemma WholeRule(r: Rules, d: Word, n: nat, rest: Word, c: nat, i: nat)
    requires RuleFrom(r, d, 0) && i <= |d| && rest == d[i..]
    requires n == 0 || Dots(d) == 0 ==> i == 0
    requires n > 0 && Dots(d) > 0 ==> LastLabel(d, c) && KeepsLabels(d, c, n - 1, i)
    ensures Reduced(r, d, n, rest) <==> !(0 < n <= Dots(d))
  {
    assert LongestRule(r, d, 0);
    WholeReduced(r, d, n);
    if n > 0 && Dots(d) > 0 {
      AllKept(d, c, n - 1, i);
    }
    if Reduced(r, d, n, rest) {
      OnlyWholeReduced(r, d, n, rest);
    }
  }

  method StripDots(domain: Word) returns (d: Word)
    ensures d == Strip(domain)
  {
    d := domain;
    while d != [] && d[0] == DOT
      invariant StripFront(d) == StripFront(domain)
      decreases |d|
    {
      d := d[1..];
    }
    while d != [] && d[|d| - 1] == DOT
      invariant StripBack(d) == Strip(domain)
      decreases |d|
    {
      d := d[..|d| - 1];
    }
  }

  /** The stripped domain, cut down to its registry suffix and `n` labels in front of it; except that a
      domain which is itself a rule loses labels of that rule, if it has more than `n` of them and `n` is
      not zero. */
  method ReduceDomain(domain: Word, n: nat, graph: seq<int>, ghost r: Rules) returns (rest: Word)
    requires FromRules(graph, r) && |domain| < NPOS
    ensures var d := Strip(domain);
            Reduced(r, d, n, rest) <==> !(d != [] && IsRule(r, d) && 0 < n <= Dots(d))
    ensures var d := Strip(domain);
            d != [] && IsRule(r, d) && 0 < n <= Dots(d) ==>
              exists c: nat, i: nat :: LastLabel(d, c) && KeepsLabels(d, c, n - 1, i) && rest == d[i..]
  {
    var d := StripDots(domain);
    ghost var a, b := StripMeans(domain);
    var pos := SuffixPosition(d, graph, r);
    if pos.None? {
      WholeReduced(r, d, n);
      return d;
    }
    ghost var c, i;
    rest, c, i := CutLabels(d, pos.value, n);
    if pos.value == WRAP - 2 {
      WholeRule(r, d, n, rest, c, i);
    } else {
      assert Reduced(r, d, n, rest);
    }
  }

  /** Two characters in front of the suffix; nothing if that is the whole domain and not a rule. */
  method SuffixPosition(d: Word, graph: seq<int>, ghost r: Rules) returns (pos: Option<nat>)
    requires FromRules(graph, r) && |d| < NPOS && (d != [] ==> d[0] != DOT)
    ensures pos.None? ==> Suffix(r, d, 0)
    ensures pos.Some? && pos.value != WRAP - 2 ==> pos.value + 2 <= |d| && Aligned(d, pos.value + 2) && Suffix(r, d, pos.value + 2)
    ensures RuleFrom(r, d, 0) <==> pos == Some(WRAP - 2)
  {
    var tld := GetTld(d, graph, r);
    if tld.Some? {
      ghost var c: nat := |d| - |tld.value|;
      assert LongestRule(r, d, c);
      assert c > 0 ==> c >= 2;
      return Some(Wrapped(|d| - |tld.value| - 2));
    }
    var p := RFind(d, NPOS);
    if p == NPOS {
      NoDots(d);
      return None;
    }
    DotsWithin(d, p + 1);
    assert LastLabel(d, p + 1);
    pos := Some(Wrapped(p - 1));
  }

  /** With the rule "co.uk", asking for that domain and one label more gives "uk". */
  lemma RuleLosesLabel(r: Rules)
    requires IsRule(r, [99, 111, DOT, 117, 107])
    ensures var d := [99, 111, DOT, 117, 107];
            Strip(d) == d && Dots(d) == 1 && LastLabel(d, 3) && KeepsLabels(d, 3, 0, 3) && !Reduced(r, d, 1, d[3..])
  {
    var d := [99, 111, DOT, 117, 107];
    NoDots(d[3..]);
    NoDots([99, 111]);
    assert d == [99, 111] + ([DOT] + d[3..]);
    DotsAppend([99, 111], [DOT] + d[3..]);
    DotsAppend([DOT], d[3..]);
    assert Dots([DOT]) == 1 + Dots([DOT][1..]);
    assert d[3..3] == [];
    assert d[0..] == d;
    if Reduced(r, d, 1, d[3..]) {
      OnlyWholeReduced(r, d, 1, d[3..]);
    }
  }
}
