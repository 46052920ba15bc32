/** `cpu_list_count` of src/internal.hh: the number of CPUs in a kernel list such as
    "0-2,8,10-11". */
module CpuList {
  import opened Text
  import opened Numerals
  import opened Numbers

  datatype Range = Range(first: nat, last: nat)

  /** What one comma-separated token denotes, if it is well formed. */
  function TokenRange(token: string): (r: Option<Range>)
    ensures r.Some? ==> r.value.first <= r.value.last <= U64_MAX
  {
    var t := Trim(token);
    match Find(t, '-', 0)
    case None => (
      match U64Text(t)
      case None => None
      case Some(n) => Some(Range(n, n)))
    case Some(dash) =>
      var first, last := U64Text(t[..dash]), U64Text(t[dash + 1..]);
      if first == None || last == None || last.value < first.value then None
      else Some(Range(first.value, last.value))
  }

  function RangesOf(tokens: seq<string>): (r: Option<seq<Range>>)
    ensures r.Some? ==> |r.value| == |tokens| && forall x <- r.value :: x.first <= x.last <= U64_MAX
  {
    if tokens == [] then Some([])
    else
      var head, tail := TokenRange(tokens[0]), RangesOf(tokens[1..]);
      if head == None || tail == None then None else Some([head.value] + tail.value)
  }

  /** The ranges are those of the tokens, in order. */
  lemma {:induction false} RangesAt(tokens: seq<string>)
    ensures RangesOf(tokens).Some? ==>
              forall i :: 0 <= i < |tokens| ==> TokenRange(tokens[i]) == Some(RangesOf(tokens).value[i])
  {
    hide TokenRange;
    if tokens != [] {
      RangesAt(tokens[1..]);
      assert forall i :: 0 < i < |tokens| ==> tokens[i] == tokens[1..][i - 1];
    }
  }

  function Width(r: Range): int {
    r.last - r.first + 1
  }

  /** The unbounded sum of the widths. */
  function Total(rs: seq<Range>): int {
    if rs == [] then 0 else Width(rs[0]) + Total(rs[1..])
  }

  lemma {:induction false} TotalNotNegative(rs: seq<Range>)
    requires forall r <- rs :: r.first <= r.last
    ensures Total(rs) >= |rs|
  {
    if rs != [] {
      TotalNotNegative(rs[1..]);
    }
  }

  /** Adding a list to a count gives a 64-bit number or nothing. */
  function Counted(count: u64, rs: Option<seq<Range>>): Option<u64> {
    if rs == None || !(0 <= count + Total(rs.value) <= U64_MAX) then None else Some(count + Total(rs.value))
  }

  /** The count of a list text: blank is no CPU; otherwise every token must be well formed
      and the unbounded total must fit. */
  function CountOf(text: string): Option<u64> {
    var value := Trim(text);
    if value == "" then Some(0) else Counted(0, RangesOf(Split(value, ',')))
  }

  /** One token of the loop. */
  function Advanced(count: u64, r: Option<Range>): Option<u64> {
    if r == None || count + Width(r.value) > U64_MAX || Width(r.value) < 0 then None
    else Some(count + Width(r.value))
  }

  /** The body of the loop: parse a token and add its width under the overflow guards. */
  method AddToken(text: string, count: u64) returns (r: Option<u64>)
    ensures r == Advanced(count, TokenRange(text))
  {
    hide U64Text, Trim, Find;
    var token := Trim(text);
    var dash := Find(token, '-', 0);
    if dash == None {
      var cpu := ParseU64(token);
      if cpu == None {
        return None;
      }
      if count == U64_MAX {
        return None;
      }
      return Some(count + 1);
    }
    var first := ParseU64(token[..dash.value]);
    var last := ParseU64(token[dash.value + 1..]);
    if first == None || last == None || last.value < first.value {
      return None;
    }
    var rangeCount := (last.value - first.value + 1) % (U64_MAX + 1);
    if rangeCount == 0 || count > U64_MAX - rangeCount {
      return None;
    }
    return Some(count + rangeCount);
  }

  method CpuListCount(text: string) returns (r: Option<u64>)
    ensures r == CountOf(text)
  {
    hide TokenRange, Split, RangesOf;
    var value := Trim(text);
    if value == "" {
      return Some(0);
    }
    ghost var goal := CountOf(text);
    var count: u64 := 0;
    var start := 0;
    ghost var pending := Split(value, ',');
    assert value[0..] == value;
    while start <= |value|
      invariant start <= |value| && pending == Split(value[start..], ',')
      invariant Counted(count, RangesOf(pending)) == goal
      decreases |value| - start
    {
      var comma := Find(value, ',', start);
      var token := if comma == None then value[start..] else value[start..comma.value];
      ghost var rest := if comma == None then [] else Split(value[comma.value + 1..], ',');
      SplitStep(value, ',', start);
      assert pending == [token] + rest;
      CountStep(token, rest, count);
      var next := AddToken(token, count);
      if next == None {
        return None;
      }
      count := next.value;
      if comma == None {
        break;
      }
      start, pending := comma.value + 1, rest;
    }
    return Some(count);
  }

  lemma RangesStep(token: string, rest: seq<string>)
    ensures RangesOf([token] + rest) ==
            if TokenRange(token) == None || RangesOf(rest) == None then None
            else Some([TokenRange(token).value] + RangesOf(rest).value)
    ensures rest == [] ==> RangesOf(rest) == Some([])
  {
    hide TokenRange;
    assert ([token] + rest)[1..] == rest;
  }

  /** A rejected token, or an overflow, rejects the whole; otherwise counting goes on. */
  lemma CountStep(token: string, rest: seq<string>, count: u64)
    ensures var next := Advanced(count, TokenRange(token));
            && Counted(count, RangesOf([token] + rest)) ==
                 (if next == None then None else Counted(next.value, RangesOf(rest)))
            && (next != None && rest == [] ==> Counted(next.value, RangesOf(rest)) == next)
  {
    hide TokenRange;
    assert ([token] + rest)[1..] == rest;
    RangesStep(token, rest);
    hide RangesOf;
    var head, tail := TokenRange(token), RangesOf(rest);
    if head != None && tail != None {
      TotalNotNegative(tail.value);
      assert ([head.value] + tail.value)[1..] == tail.value;
    }
  }

  /** A token is one id, or two with a dash between them that ascend; the ids are 64-bit
      numbers and may be padded. */
  lemma TokenExact(token: string, first: nat, last: nat)
    ensures TokenRange(token) == Some(Range(first, last)) <==>
            && first <= last
            && ((first == last && '-' !in Trim(token) && U64Text(Trim(token)) == Some(first))
                || exists a, b | '-' !in a && Trim(token) == a + "-" + b ::
                     U64Text(a) == Some(first) && U64Text(b) == Some(last))
  {
    hide U64Text, Trim;
    var t := Trim(token);
    match Find(t, '-', 0)
    case None =>
      forall a, b
        ensures a + "-" + b != t
      {
        assert (a + "-" + b)[|a|] == '-';
      }
    case Some(dash) =>
      assert t == t[..dash] + "-" + t[dash + 1..] && '-' !in t[..dash];
      assert t[dash] in t;
      forall a, b | '-' !in a && t == a + "-" + b
        ensures a == t[..dash] && b == t[dash + 1..]
      {
        FindFirst(a, '-', b);
        assert a + ['-'] + b == t;
      }
  }

  /** The count is exact: no CPU for a blank text; otherwise n comes out if and only if
      every token is a well-formed id or ascending range and the unbounded sum of their
      widths is n, which fits. */
  lemma CountExact(text: string, n: nat)
    ensures Trim(text) == "" ==> CountOf(text) == Some(0)
    ensures Trim(text) != "" ==>
            (CountOf(text) == Some(n) <==>
            && (forall token <- Split(Trim(text), ',') :: TokenRange(token).Some?)
            && n == TotalWidth(Split(Trim(text), ',')) <= U64_MAX)
  {
    hide TokenRange;
    var tokens := Split(Trim(text), ',');
    RangesAre(tokens);
    if RangesOf(tokens).Some? {
      TotalNotNegative(RangesOf(tokens).value);
    }
  }

  /** The sum of the widths of the well-formed tokens. */
  function TotalWidth(tokens: seq<string>): int {
    if tokens == [] then 0
    else (if TokenRange(tokens[0]).Some? then Width(TokenRange(tokens[0]).value) else 0) + TotalWidth(tokens[1..])
  }

  lemma {:induction false} RangesAre(tokens: seq<string>)
    ensures RangesOf(tokens).Some? <==> forall token <- tokens :: TokenRange(token).Some?
    ensures RangesOf(tokens).Some? ==> Total(RangesOf(tokens).value) == TotalWidth(tokens)
  {
    hide TokenRange;
    if tokens != [] {
      RangesAre(tokens[1..]);
      assert tokens == [tokens[0]] + tokens[1..];
      var head, tail := TokenRange(tokens[0]), RangesOf(tokens[1..]);
      if head.Some? && tail.Some? {
        assert ([head.value] + tail.value)[1..] == tail.value;
      }
    }
  }

  // The ids that a list denotes.

  predicate Within(i: nat, r: Range) {
    r.first <= i <= r.last
  }

  function Interval(r: Range): set<nat> {
    set i: nat | i <= r.last && Within(i, r)
  }

  ghost function Ids(rs: seq<Range>): set<nat> {
    if rs == [] then {} else Interval(rs[0]) + Ids(rs[1..])
  }

  lemma {:induction false} IntervalSize(first: nat, last: nat)
    requires first <= last
    ensures |Interval(Range(first, last))| == last - first + 1
    decreases last - first
  {
    var whole := Interval(Range(first, last));
    if first == last {
      assert whole == {first};
    } else {
      IntervalSize(first + 1, last);
      assert whole == {first} + Interval(Range(first + 1, last));
    }
  }

  ghost predicate Disjoint(rs: seq<Range>) {
    forall i, j :: 0 <= i < j < |rs| ==> Interval(rs[i]) !! Interval(rs[j])
  }

  /** The count of a list is never less than the number of ids it denotes, and equals it
      exactly when no id is listed twice. */
  lemma {:induction false} CountAndIds(rs: seq<Range>)
    requires forall r <- rs :: r.first <= r.last
    ensures |Ids(rs)| <= Total(rs)
    ensures |Ids(rs)| == Total(rs) <==> Disjoint(rs)
  {
    if rs != [] {
      var head, tail := Interval(rs[0]), Ids(rs[1..]);
      CountAndIds(rs[1..]);
      IntervalSize(rs[0].first, rs[0].last);
      UnionSize(head, tail);
      IdsDisjoint(rs[0], rs[1..]);
      assert rs == [rs[0]] + rs[1..];
      DisjointCons(rs);
    }
  }

  lemma UnionSize<T>(a: set<T>, b: set<T>)
    ensures |a + b| <= |a| + |b|
    ensures |a + b| == |a| + |b| <==> a !! b
  {
    assert a + b == a + (b - a) && b == (b - a) + (a * b);
    if a * b != {} {
      assert |a * b| > 0;
    }
  }

  lemma {:induction false} IdsDisjoint(r: Range, rs: seq<Range>)
    ensures Interval(r) !! Ids(rs) <==> forall x <- rs :: Interval(r) !! Interval(x)
  {
    if rs != [] {
      IdsDisjoint(r, rs[1..]);
      assert rs == [rs[0]] + rs[1..];
    }
  }

  lemma DisjointCons(rs: seq<Range>)
    requires rs != []
    ensures Disjoint(rs) <==> Disjoint(rs[1..]) && forall x <- rs[1..] :: Interval(rs[0]) !! Interval(x)
  {
    var tail := rs[1..];
    if Disjoint(rs) {
      forall x <- tail ensures Interval(rs[0]) !! Interval(x) {
        var k :| 0 <= k < |tail| && tail[k] == x;
        assert rs[k + 1] == x;
      }
    }
    if Disjoint(tail) && forall x <- tail :: Interval(rs[0]) !! Interval(x) {
      forall i, j | 0 <= i < j < |rs| ensures Interval(rs[i]) !! Interval(rs[j]) {
        assert rs[j] == tail[j - 1] && tail[j - 1] in tail;
      }
    }
  }

  /** For an accepted text: the count bounds the ids listed, and is exact when the tokens
      are pairwise disjoint, and only then. */
  lemma CountMeaning(text: string, n: nat)
    requires Trim(text) != "" && CountOf(text) == Some(n)
    ensures var rs := RangesOf(Split(Trim(text), ',')).value;
            |Ids(rs)| <= n && (|Ids(rs)| == n <==> Disjoint(rs))
  {
    hide TokenRange;
    CountAndIds(RangesOf(Split(Trim(text), ',')).value);
  }

  // Printing a set of ids the way the kernel does, and counting the text.

  function RangeText(r: Range): string {
    if r.first == r.last then Decimal(r.first) else Decimal(r.first) + "-" + Decimal(r.last)
  }

  function Texts(rs: seq<Range>): (r: seq<string>)
    ensures |r| == |rs|
  {
    if rs == [] then [] else [RangeText(rs[0])] + Texts(rs[1..])
  }

  function ListText(rs: seq<Range>): string {
    Join(Texts(rs), ",")
  }

  ghost predicate Plain(s: string) {
    s != "" && forall c <- s :: IsDigit(c, 10) || c == '-'
  }

  lemma PlainText(s: string)
    requires Plain(s)
    ensures Trim(s) == s && ',' !in s
  {
    assert s[0] in s && s[|s| - 1] in s;
    TrimOfTrimmed(s);
  }

  /** A printed range is a token that means that range. */
  lemma RangeTextMeans(r: Range)
    requires r.first <= r.last <= U64_MAX
    ensures Plain(RangeText(r)) && TokenRange(RangeText(r)) == Some(r)
  {
    hide U64Text;
    var a, b := Decimal(r.first), Decimal(r.last);
    PlainDecimal(r.first);
    PlainDecimal(r.last);
    if r.first == r.last {
      PlainText(a);
      assert Find(a, '-', 0) == None by { assert forall k | 0 <= k < |a| :: a[k] in a; }
    } else {
      var t := a + ['-'] + b;
      PlainText(t);
      FindFirst(a, '-', b);
      assert t[..|a|] == a && t[|a| + 1..] == b;
    }
  }

  lemma PlainDecimal(n: nat)
    ensures Plain(Decimal(n)) && '-' !in Decimal(n)
    ensures n <= U64_MAX ==> U64Text(Decimal(n)) == Some(n)
  {
    U64OfDecimal("", n, "");
    assert "" + Decimal(n) + "" == Decimal(n);
  }

  lemma {:induction false} ListTextMeans(rs: seq<Range>)
    requires forall r <- rs :: r.first <= r.last <= U64_MAX
    ensures RangesOf(Texts(rs)) == Some(rs)
    ensures forall t <- Texts(rs) :: Plain(t) && ',' !in t
  {
    hide TokenRange, RangeText;
    if rs != [] {
      RangeTextMeans(rs[0]);
      PlainText(RangeText(rs[0]));
      ListTextMeans(rs[1..]);
      assert rs == [rs[0]] + rs[1..] && Texts(rs)[1..] == Texts(rs[1..]);
    }
  }

  /** A printed list of ranges is counted as the sum of their widths, or rejected when
      that sum does not fit. */
  lemma ListTextCounts(rs: seq<Range>)
    requires forall r <- rs :: r.first <= r.last <= U64_MAX
    ensures CountOf(ListText(rs)) == if Total(rs) <= U64_MAX then Some(Total(rs)) else None
  {
    hide TokenRange, RangeText;
    TotalNotNegative(rs);
    if rs != [] {
      ListTextMeans(rs);
      SplitJoin(Texts(rs), ',');
      JoinPlain(Texts(rs));
      assert Trim(ListText(rs)) == ListText(rs);
    }
  }

  lemma {:induction false} JoinPlain(parts: seq<string>)
    requires parts != [] && forall t <- parts :: Plain(t)
    ensures var s := Join(parts, ","); s != "" && Trimmed(s) && Trim(s) == s
  {
    var s := Join(parts, ",");
    var first := parts[0];
    assert first in parts;
    assert first[0] in first && s[0] == first[0];
    if |parts| == 1 {
      assert s[|s| - 1] in first;
    } else {
      JoinPlain(parts[1..]);
      var t := Join(parts[1..], ",");
      assert s[|s| - 1] == t[|t| - 1];
    }
    TrimOfTrimmed(s);
  }

  // Maximal runs.

  ghost function Least(s: set<nat>): (m: nat)
    requires s != {}
    ensures m in s && forall i <- s :: m <= i
    decreases |s|
  {
    var x :| x in s;
    if s == {x} then x
    else
      var rest := s - {x};
      assert rest != {};
      var m := Least(rest);
      assert s == rest + {x};
      if x < m then x else m
  }

  /** The last id of the run that goes through `i`. */
  ghost function RunEnd(s: set<nat>, i: nat): (last: nat)
    requires i in s
    ensures i <= last && last + 1 !in s
    ensures forall k :: i <= k <= last ==> k in s
    decreases |set k | k in s && k > i|
  {
    if i + 1 in s then
      var above, less := set k | k in s && k > i, set k | k in s && k > i + 1;
      assert less < above by { assert i + 1 in above && i + 1 !in less; }
      SubsetSize(less, above);
      RunEnd(s, i + 1)
    else i
  }

  lemma SubsetSize<T>(a: set<T>, b: set<T>)
    requires a < b
    ensures |a| < |b|
  {
    assert b == a + (b - a) && b - a != {};
  }

  /** The maximal runs of a set, in ascending order. */
  ghost function Runs(s: set<nat>): seq<Range>
    decreases |s|
  {
    if s == {} then []
    else
      var first := Least(s);
      var r := Range(first, RunEnd(s, first));
      assert s - Interval(r) < s by { assert first in Interval(r); }
      SubsetSize(s - Interval(r), s);
      [r] + Runs(s - Interval(r))
  }

  lemma FirstRun(s: set<nat>) returns (r: Range, rest: set<nat>)
    requires s != {}
    ensures r.first <= r.last && r.first in s && r.last in s
    ensures Runs(s) == [r] + Runs(rest) && Runs(s)[0] == r && Runs(s)[1..] == Runs(rest)
    ensures rest < s && |rest| < |s| && Interval(r) + rest == s && |s| == Width(r) + |rest|
    ensures forall i <- rest :: i > r.last + 1
  {
    r := Range(Least(s), RunEnd(s, Least(s)));
    rest := s - Interval(r);
    assert r.first in Interval(r);
    assert forall i <- Interval(r) :: i in s;
    SubsetSize(rest, s);
    IntervalSize(r.first, r.last);
    assert s == Interval(r) + rest;
  }

  /** Ascending ranges with a gap between neighbours, so that no two can be merged. */
  ghost predicate Apart(rs: seq<Range>) {
    forall i :: 0 <= i < |rs| - 1 ==> rs[i].last + 1 < rs[i + 1].first
  }

  lemma ApartCons(r: Range, rs: seq<Range>)
    requires Apart(rs) && (rs != [] ==> r.last + 1 < rs[0].first)
    ensures Apart([r] + rs)
  {
    var all := [r] + rs;
    assert forall i :: 0 < i < |all| ==> all[i] == rs[i - 1];
  }

  lemma {:induction false} RunsInside(s: set<nat>)
    ensures forall r <- Runs(s) :: r.first <= r.last && r.first in s && r.last in s
    decreases |s|
  {
    if s != {} {
      hide Runs, Interval;
      var r, rest := FirstRun(s);
      RunsInside(rest);
      assert forall x :: x in Runs(s) ==> x == r || x in Runs(rest);
    }
  }

  lemma {:induction false} RunsApart(s: set<nat>)
    ensures Apart(Runs(s))
    decreases |s|
  {
    if s != {} {
      hide Runs, Interval, Apart;
      var r, rest := FirstRun(s);
      RunsApart(rest);
      RunsInside(rest);
      var others := Runs(rest);
      if others != [] {
        assert others[0] in others && others[0].first in rest;
      }
      ApartCons(r, others);
    } else {
      assert Runs(s) == [];
    }
  }

  lemma {:induction false} RunsDenote(s: set<nat>)
    ensures Ids(Runs(s)) == s && Total(Runs(s)) == |s|
    decreases |s|
  {
    if s != {} {
      hide Runs, Interval;
      var r, rest := FirstRun(s);
      RunsDenote(rest);
    }
  }

  /** The runs denote the set, their widths add up to its size, and no two can be
      merged. */
  lemma RunsAre(s: set<nat>)
    ensures Ids(Runs(s)) == s && Total(Runs(s)) == |s| && Apart(Runs(s))
    ensures forall r <- Runs(s) :: r.first <= r.last && r.first in s && r.last in s
  {
    hide Runs, Apart, Ids, Total;
    RunsDenote(s);
    RunsInside(s);
    RunsApart(s);
  }

  /** A printed list is one line. */
  lemma {:induction false} ListTextIsLine(rs: seq<Range>)
    requires forall r <- rs :: r.first <= r.last <= U64_MAX
    ensures '\n' !in ListText(rs)
  {
    hide RangeText, Plain;
    if rs != [] {
      RangeTextMeans(rs[0]);
      PlainIsLine(RangeText(rs[0]));
      ListTextIsLine(rs[1..]);
    }
  }

  lemma PlainIsLine(s: string)
    requires Plain(s)
    ensures '\n' !in s
  {}

  /** Printing any set of 64-bit ids as maximal runs and counting the text gives the size
      of the set, when that size is itself a 64-bit number. */
  lemma SetRoundTrip(s: set<nat>)
    requires (forall i <- s :: i <= U64_MAX) && |s| <= U64_MAX
    ensures CountOf(ListText(Runs(s))) == Some(|s|)
  {
    hide CountOf, ListText, Runs, Apart;
    RunsAre(s);
    ListTextCounts(Runs(s));
  }
}
