/** Text as the parsers see it.  A byte with value n is the `char` with code n, so a
    statement about every `string` covers every byte string. */
module Text {

  datatype Option<+T> = None | Some(value: T)

  ghost predicate Distinct<T(!new)>(s: seq<T>) {
    forall i, j :: 0 <= i < j < |s| ==> s[i] != s[j]
  }

  lemma DistinctCons<T(!new)>(x: T, s: seq<T>)
    requires x !in s && Distinct(s)
    ensures Distinct([x] + s)
  {
    var r := [x] + s;
    forall i, j | 0 <= i < j < |r| ensures r[i] != r[j] {
      assert r[j] == s[j - 1];
    }
  }

  /** The positions that a filter keeps, all of them and in order. */
  ghost predicate Picks(at: seq<nat>, kept: seq<bool>) {
    && (forall k :: 0 <= k < |at| ==> at[k] < |kept| && kept[at[k]])
    && (forall j, k :: 0 <= j < k < |at| ==> at[j] < at[k])
    && (forall i :: 0 <= i < |kept| && kept[i] ==> i in at)
  }

  lemma NoPicks()
    ensures Picks([], [])
  {}

  lemma ShiftHas(later: seq<nat>, shifted: seq<nat>, i: nat)
    requires |shifted| == |later| && forall k :: 0 <= k < |later| ==> shifted[k] == later[k] + 1
    requires i in later
    ensures i + 1 in shifted
  {
    var k :| 0 <= k < |later| && later[k] == i;
    assert shifted[k] in shifted;
  }

  lemma PicksSkip(kept: seq<bool>, later: seq<nat>) returns (at: seq<nat>)
    requires Picks(later, kept)
    ensures Picks(at, [false] + kept)
    ensures |at| == |later| && forall k :: 0 <= k < |later| ==> at[k] == later[k] + 1
  {
    at := seq(|later|, k requires 0 <= k < |later| => later[k] + 1);
    var all := [false] + kept;
    forall i | 0 <= i < |all| && all[i] ensures i in at {
      ShiftHas(later, at, i - 1);
    }
  }

  lemma PicksTake(kept: seq<bool>, at: seq<nat>)
    requires Picks(at, [false] + kept)
    ensures Picks([0] + at, [true] + kept)
  {
    var none, all := [false] + kept, [true] + kept;
    assert forall i :: 0 < i < |all| ==> all[i] == none[i];
    forall k | 0 <= k < |at| ensures at[k] > 0 {
      assert none[at[k]] && !none[0];
    }
    assert ([0] + at)[0] == 0;
    forall i | 0 <= i < |all| && all[i] ensures i in [0] + at {
      assert i > 0 ==> none[i];
    }
  }

  lemma PicksCons(first: bool, kept: seq<bool>, later: seq<nat>) returns (at: seq<nat>)
    requires Picks(later, kept)
    ensures Picks(at, [first] + kept)
    ensures var n := if first then 1 else 0;
            && |at| == n + |later| && (first ==> at[0] == 0)
            && forall k :: 0 <= k < |later| ==> at[n + k] == later[k] + 1
  {
    hide Picks;
    at := PicksSkip(kept, later);
    if first {
      PicksTake(kept, at);
      at := [0] + at;
    }
  }

  /** `isspace` in the C locale: space, and the bytes 9 to 13. */
  predicate IsSpace(c: char) {
    c == ' ' || 9 <= c as int <= 13
  }

  ghost predicate AllSpace(s: string) {
    forall c <- s :: IsSpace(c)
  }

  /** Neither end is white space. */
  ghost predicate Trimmed(s: string) {
    s != "" ==> !IsSpace(s[0]) && !IsSpace(s[|s| - 1])
  }

  function TrimLeft(s: string): string {
    if s != "" && IsSpace(s[0]) then TrimLeft(s[1..]) else s
  }

  function TrimRight(s: string): string {
    if s != "" && IsSpace(s[|s| - 1]) then TrimRight(s[..|s| - 1]) else s
  }

  function Trim(s: string): string {
    TrimRight(TrimLeft(s))
  }

  lemma {:induction false} TrimLeftPad(p: string, t: string)
    requires AllSpace(p) && (t == "" || !IsSpace(t[0]))
    ensures TrimLeft(p + t) == t
  {
    if p == "" {
      assert p + t == t;
    } else {
      assert (p + t)[1..] == p[1..] + t;
      TrimLeftPad(p[1..], t);
    }
  }

  lemma {:induction false} TrimRightPad(t: string, q: string)
    requires AllSpace(q) && (t == "" || !IsSpace(t[|t| - 1]))
    ensures TrimRight(t + q) == t
  {
    if q == "" {
      assert t + q == t;
    } else {
      assert (t + q)[..|t + q| - 1] == t + q[..|q| - 1];
      TrimRightPad(t, q[..|q| - 1]);
    }
  }

  /** Padding a trimmed text on both sides is undone by `Trim`. */
  lemma TrimPad(p: string, t: string, q: string)
    requires AllSpace(p) && AllSpace(q) && Trimmed(t)
    ensures Trim(p + t + q) == t
  {
    if t == "" {
      TrimLeftPad(p + q, "");
      assert p + t + q == p + q + "";
    } else {
      assert p + t + q == p + (t + q);
      TrimLeftPad(p, t + q);
      TrimRightPad(t, q);
    }
  }

  lemma {:induction false} TrimLeftSplits(s: string) returns (p: string)
    ensures AllSpace(p) && s == p + TrimLeft(s)
    ensures TrimLeft(s) == "" || !IsSpace(TrimLeft(s)[0])
  {
    if s != "" && IsSpace(s[0]) {
      var p' := TrimLeftSplits(s[1..]);
      p := [s[0]] + p';
    } else {
      p := "";
    }
  }

  lemma {:induction false} TrimRightSplits(s: string) returns (q: string)
    ensures AllSpace(q) && s == TrimRight(s) + q
    ensures TrimRight(s) == "" || !IsSpace(TrimRight(s)[|TrimRight(s)| - 1])
  {
    if s != "" && IsSpace(s[|s| - 1]) {
      var q' := TrimRightSplits(s[..|s| - 1]);
      q := q' + [s[|s| - 1]];
    } else {
      q := "";
    }
  }

  /** `Trim` removes a white-space prefix and suffix and leaves a trimmed core. */
  lemma TrimSplits(s: string) returns (p: string, q: string)
    ensures AllSpace(p) && AllSpace(q) && s == p + Trim(s) + q
    ensures Trimmed(Trim(s))
  {
    p := TrimLeftSplits(s);
    q := TrimRightSplits(TrimLeft(s));
    if Trim(s) != "" {
      assert TrimLeft(s)[0] == Trim(s)[0];
    }
  }

  lemma TrimOfTrimmed(s: string)
    requires Trimmed(s)
    ensures Trim(s) == s
  {
    TrimPad("", s, "");
    assert "" + s + "" == s;
  }

  /** `string::find` of one character: the first position not before `start`. */
  function Find(s: string, c: char, start: nat): (r: Option<nat>)
    requires start <= |s|
    ensures r.None? ==> forall k :: start <= k < |s| ==> s[k] != c
    ensures r.Some? ==> start <= r.value < |s| && s[r.value] == c
    ensures r.Some? ==> forall k :: start <= k < r.value ==> s[k] != c
    decreases |s| - start
  {
    if start == |s| then None
    else if s[start] == c then Some(start)
    else Find(s, c, start + 1)
  }

  /** The characters before the first NUL, which is all that a C string keeps. */
  function CString(s: string): (r: string)
    ensures '\0' !in r && r <= s
    ensures '\0' !in s ==> r == s
    ensures r != s ==> s[|r|] == '\0'
  {
    match Find(s, '\0', 0)
    case None => s
    case Some(i) => s[..i]
  }

  /** All pieces between separators: n separators always give n + 1 pieces. */
  function Split(s: string, sep: char): (r: seq<string>)
    ensures |r| > 0
    decreases |s|
  {
    match Find(s, sep, 0)
    case None => [s]
    case Some(i) => [s[..i]] + Split(s[i + 1..], sep)
  }

  /** What repeated `getline` yields: a final unterminated piece counts, and a
      trailing separator adds no empty piece. */
  function Lines(s: string, sep: char): seq<string>
    decreases |s|
  {
    if s == "" then []
    else match Find(s, sep, 0)
      case None => [s]
      case Some(i) => [s[..i]] + Lines(s[i + 1..], sep)
  }

  function Join(parts: seq<string>, sep: string): string {
    if parts == [] then ""
    else if |parts| == 1 then parts[0]
    else parts[0] + sep + Join(parts[1..], sep)
  }

  lemma FindFirst(p: string, sep: char, rest: string)
    requires sep !in p
    ensures Find(p + [sep] + rest, sep, 0) == Some(|p|)
  {
    var s := p + [sep] + rest;
    assert s[|p|] == sep;
    assert forall k | 0 <= k < |p| :: s[k] == p[k] && p[k] in p;
  }

  lemma SplitFirst(p: string, sep: char, rest: string)
    requires sep !in p
    ensures Split(p + [sep] + rest, sep) == [p] + Split(rest, sep)
  {
    FindFirst(p, sep, rest);
    assert (p + [sep] + rest)[..|p|] == p;
    assert (p + [sep] + rest)[|p| + 1..] == rest;
  }

  lemma SplitNone(s: string, sep: char)
    requires sep !in s
    ensures Split(s, sep) == [s]
  {
    assert Find(s, sep, 0).None? by { assert forall k | 0 <= k < |s| :: s[k] in s; }
  }

  lemma LinesFirst(p: string, sep: char, rest: string)
    requires sep !in p
    ensures Lines(p + [sep] + rest, sep) == [p] + Lines(rest, sep)
  {
    FindFirst(p, sep, rest);
    assert (p + [sep] + rest)[..|p|] == p;
    assert (p + [sep] + rest)[|p| + 1..] == rest;
  }

  lemma SplitAt(a: string, i: nat, sep: char, tail: string)
    requires Find(a, sep, 0) == Some(i)
    ensures Split(a + tail, sep) == [a[..i]] + Split(a[i + 1..] + tail, sep)
  {
    SplitFirst(a[..i], sep, a[i + 1..] + tail);
    assert a + tail == a[..i] + [sep] + (a[i + 1..] + tail);
  }

  /** A final separator adds one empty piece. */
  lemma {:induction false} SplitSnoc(t: string, sep: char)
    ensures Split(t + [sep], sep) == Split(t, sep) + [""]
    decreases |t|
  {
    match Find(t, sep, 0)
    case None =>
      SplitFirst(t, sep, "");
      assert t + [sep] + "" == t + [sep];
    case Some(i) =>
      SplitSnoc(t[i + 1..], sep);
      SplitAt(t, i, sep, [sep]);
  }

  /** The last piece is empty exactly when nothing follows the last separator. */
  lemma {:induction false} SplitLast(s: string, sep: char)
    ensures var pieces := Split(s, sep);
            pieces[|pieces| - 1] == "" <==> s == "" || s[|s| - 1] == sep
    decreases |s|
  {
    match Find(s, sep, 0)
    case None =>
    case Some(i) => SplitLast(s[i + 1..], sep);
  }

  /** One step of a loop that looks for the next separator. */
  lemma SplitStep(s: string, sep: char, start: nat)
    requires start <= |s|
    ensures Split(s[start..], sep) ==
            match Find(s, sep, start)
            case None => [s[start..]]
            case Some(i) => [s[start..i]] + Split(s[i + 1..], sep)
  {
    hide Find, Split;
    match Find(s, sep, start)
    case None =>
      SplitNone(s[start..], sep);
    case Some(i) =>
      SplitFirst(s[start..i], sep, s[i + 1..]);
      assert s[start..] == s[start..i] + [sep] + s[i + 1..];
  }

  /** Splitting undoes joining when no piece holds the separator. */
  lemma {:induction false} SplitJoin(parts: seq<string>, sep: char)
    requires parts != [] && forall p <- parts :: sep !in p
    ensures Split(Join(parts, [sep]), sep) == parts
  {
    if |parts| == 1 {
      SplitNone(parts[0], sep);
    } else {
      SplitFirst(parts[0], sep, Join(parts[1..], [sep]));
      SplitJoin(parts[1..], sep);
      assert parts[0] + [sep] + Join(parts[1..], [sep]) == Join(parts, [sep]);
    }
  }

  /** Joining undoes splitting, and no piece holds the separator. */
  lemma {:induction false} JoinSplit(s: string, sep: char)
    ensures Join(Split(s, sep), [sep]) == s && forall p <- Split(s, sep) :: sep !in p
    decreases |s|
  {
    match Find(s, sep, 0)
    case None =>
    case Some(i) =>
      JoinSplit(s[i + 1..], sep);
      assert s == s[..i] + [sep] + s[i + 1..];
      assert sep !in s[..i];
  }

  /** `getline` yields the pieces of `Split`, less a final empty one. */
  lemma {:induction false} LinesSplit(s: string, sep: char)
    ensures var pieces := Split(s, sep);
            Lines(s, sep) == if pieces[|pieces| - 1] == "" then pieces[..|pieces| - 1] else pieces
    decreases |s|
  {
    var r := Find(s, sep, 0);
    if r.Some? {
      var rest := s[r.value + 1..];
      LinesSplit(rest, sep);
      var tail := Split(rest, sep);
      assert ([s[..r.value]] + tail)[..|tail|] == [s[..r.value]] + tail[..|tail| - 1];
    }
  }

  /** A text that ends with the separator contributes its lines on its own. */
  lemma {:induction false} LinesConcat(a: string, sep: char, b: string)
    ensures Lines(a + [sep] + b, sep) == Lines(a + [sep], sep) + Lines(b, sep)
    decreases |a|
  {
    match Find(a, sep, 0)
    case None =>
      LinesFirst(a, sep, b);
      LinesFirst(a, sep, "");
      assert a + [sep] + "" == a + [sep];
    case Some(i) =>
      var rest := a[i + 1..];
      calc {
        Lines(a + [sep] + b, sep);
        { Assoc(a, [sep], b); LinesAt(a, i, sep, [sep] + b); Assoc(rest, [sep], b); }
        [a[..i]] + Lines(rest + [sep] + b, sep);
        { LinesConcat(rest, sep, b); }
        [a[..i]] + (Lines(rest + [sep], sep) + Lines(b, sep));
        { Assoc([a[..i]], Lines(rest + [sep], sep), Lines(b, sep)); }
        [a[..i]] + Lines(rest + [sep], sep) + Lines(b, sep);
        { LinesAt(a, i, sep, [sep]); }
        Lines(a + [sep], sep) + Lines(b, sep);
      }
  }

  lemma Assoc<T>(a: seq<T>, b: seq<T>, c: seq<T>)
    ensures a + b + c == a + (b + c)
  {}

  lemma LinesAt(a: string, i: nat, sep: char, tail: string)
    requires Find(a, sep, 0) == Some(i)
    ensures Lines(a + tail, sep) == [a[..i]] + Lines(a[i + 1..] + tail, sep)
  {
    hide Lines, Find;
    LinesFirst(a[..i], sep, a[i + 1..] + tail);
    assert a + tail == a[..i] + [sep] + (a[i + 1..] + tail);
  }

  /** A text made of terminated lines. */
  function Unlines(lines: seq<string>, sep: char): string {
    if lines == [] then "" else lines[0] + [sep] + Unlines(lines[1..], sep)
  }

  lemma {:induction false} LinesUnlines(lines: seq<string>, sep: char)
    requires forall line <- lines :: sep !in line
    ensures Lines(Unlines(lines, sep), sep) == lines
  {
    if lines != [] {
      LinesFirst(lines[0], sep, Unlines(lines[1..], sep));
      LinesUnlines(lines[1..], sep);
    }
  }

  /** Terminating a text adds an empty line only when its last line is already
      terminated. */
  lemma LinesTerminated(a: string, sep: char)
    ensures Lines(a + [sep], sep) in {Lines(a, sep), Lines(a, sep) + [""]}
  {
    hide Lines, Split;
    LinesSplit(a, sep);
    LinesSplit(a + [sep], sep);
    SplitSnoc(a, sep);
    var pieces := Split(a, sep);
    assert (pieces + [""])[..|pieces|] == pieces;
    assert pieces == pieces[..|pieces| - 1] + [pieces[|pieces| - 1]];
  }

  lemma {:induction false} JoinSnoc(parts: seq<string>, sep: string, x: string)
    ensures Join(parts + [x], sep) == if parts == [] then x else Join(parts, sep) + sep + x
  {
    if |parts| > 0 {
      JoinSnoc(parts[1..], sep, x);
      assert (parts + [x])[1..] == parts[1..] + [x];
      if |parts| == 1 {
        assert parts[1..] == [];
      } else {
        assert parts[0] + sep + (Join(parts[1..], sep) + sep + x)
            == parts[0] + sep + Join(parts[1..], sep) + sep + x;
      }
    }
  }

  /** `istream >> word` repeated: the maximal runs without white space. */
  function Words(s: string): seq<string>
    decreases |s|
  {
    var t := TrimLeft(s);
    TrimLeftShorter(s);
    if t == "" then []
    else
      var n := WordLength(t);
      [t[..n]] + Words(t[n..])
  }

  lemma TrimLeftShorter(s: string)
    ensures |TrimLeft(s)| <= |s|
    ensures TrimLeft(s) != "" ==> !IsSpace(TrimLeft(s)[0])
  {}

  function WordLength(t: string): (n: nat)
    ensures n <= |t| && (forall c <- t[..n] :: !IsSpace(c))
    ensures n < |t| ==> IsSpace(t[n])
    ensures t != "" && !IsSpace(t[0]) ==> n > 0
  {
    if t == "" || IsSpace(t[0]) then 0
    else
      var n := WordLength(t[1..]);
      assert t[..n + 1] == [t[0]] + t[1..][..n];
      n + 1
  }

  lemma {:induction false} WordLengthIs(w: string, rest: string)
    requires forall c <- w :: !IsSpace(c)
    requires rest == "" || IsSpace(rest[0])
    ensures WordLength(w + rest) == |w|
  {
    if w == "" {
      assert w + rest == rest;
    } else {
      assert (w + rest)[1..] == w[1..] + rest;
      WordLengthIs(w[1..], rest);
    }
  }

  lemma NoWords(s: string)
    requires AllSpace(s)
    ensures Words(s) == []
  {
    TrimLeftPad(s, "");
    assert s + "" == s;
  }

  /** A word stands at position i: a run without white space that cannot be extended. */
  ghost predicate WordAt(s: string, w: string, i: nat) {
    && i + |w| <= |s| && s[i..i + |w|] == w
    && w != "" && (forall c <- w :: !IsSpace(c))
    && (i > 0 ==> IsSpace(s[i - 1]))
    && (i + |w| < |s| ==> IsSpace(s[i + |w|]))
  }

  lemma WordsStep(s: string) returns (p: string, v: string, rest: string)
    requires !AllSpace(s)
    ensures s == p + (v + rest) && Words(s) == [v] + Words(rest) && |rest| < |s|
    ensures AllSpace(p) && v != "" && (forall c <- v :: !IsSpace(c)) && (rest != "" ==> IsSpace(rest[0]))
  {
    hide IsSpace, TrimLeft, WordLength;
    p := TrimLeftSplits(s);
    var t := TrimLeft(s);
    assert p + "" == p;
    v, rest := t[..WordLength(t)], t[WordLength(t)..];
    assert t == v + rest;
  }

  /** The words are exactly the maximal runs, wherever they stand. */
  lemma {:induction false} WordsAre(s: string, w: string)
    ensures w in Words(s) <==> exists i: nat :: WordAt(s, w, i)
    decreases |s|
  {
    hide Words, WordAt;
    if AllSpace(s) {
      NoWords(s);
      NoWordAt(s, w);
    } else {
      var p, v, rest := WordsStep(s);
      WordsAre(rest, w);
      var k := |p| + |v|;
      forall i: nat
        ensures WordAt(s, w, i) <==> (i == |p| && w == v) || (i >= k && WordAt(rest, w, i - k))
      {
        WordShift(p, v, rest, w, i);
      }
      if w in Words(rest) {
        var i: nat :| WordAt(rest, w, i);
        assert WordAt(s, w, i + k);
      }
      assert w == v ==> WordAt(s, w, |p|);
    }
  }

  lemma NoWordAt(s: string, w: string)
    requires AllSpace(s)
    ensures forall i: nat :: !WordAt(s, w, i)
  {
    forall i: nat
      ensures !WordAt(s, w, i)
    {
      if w != "" && i + |w| <= |s| && s[i..i + |w|] == w {
        assert w[0] == s[i] && s[i] in s && w[0] in w;
      }
    }
  }

  /** A word of padding, one word and the rest is that word or one of the rest. */
  lemma WordShift(p: string, v: string, rest: string, w: string, i: nat)
    requires AllSpace(p) && v != "" && (forall c <- v :: !IsSpace(c)) && (rest != "" ==> IsSpace(rest[0]))
    ensures WordAt(p + (v + rest), w, i) <==>
            (i == |p| && w == v) || (i >= |p| + |v| && WordAt(rest, w, i - |p| - |v|))
  {
    hide IsSpace;
    var s, k := p + (v + rest), |p| + |v|;
    assert s == p + v + rest;
    assert forall j :: 0 <= j < |p| ==> s[j] == p[j] && s[j] in p;
    assert forall j :: |p| <= j < k ==> s[j] == v[j - |p|] && s[j] in v;
    assert forall j :: k <= j < |s| ==> s[j] == rest[j - k];
    if i + |w| <= |s| && w != "" {
      assert s[i..i + |w|][0] == s[i];
      if i >= k {
        assert s[i..i + |w|] == rest[i - k..i - k + |w|];
      } else if i == |p| {
        if |w| > |v| {
          assert s[i..i + |w|][|v|] == rest[0];
        }
        assert s[|p|..k] == v;
      }
    }
  }

  /** One word, after padding and before a gap, is the first one read. */
  lemma WordsFirst(p: string, w: string, rest: string)
    requires AllSpace(p) && w != "" && (forall c <- w :: !IsSpace(c))
    requires rest == "" || IsSpace(rest[0])
    ensures Words(p + w + rest) == [w] + Words(rest)
  {
    assert p + w + rest == p + (w + rest);
    TrimLeftPad(p, w + rest);
    WordLengthIs(w, rest);
    assert (w + rest)[..|w|] == w && (w + rest)[|w|..] == rest;
  }
}
