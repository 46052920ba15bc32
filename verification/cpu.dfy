/** `parse_address_sizes` of src/cpu.cc. */
module CpuCollector {
  import opened Text
  import opened Numerals
  import opened Numbers
  import opened Fields
  import opened KeyValues
  import opened Readers

  // Address sizes.

  /** The last number among the first n words. */
  function LastNumber(words: seq<string>, n: nat): Option<u64>
    requires n <= |words|
  {
    if n == 0 then None
    else if U64Text(words[n - 1]).Some? then U64Text(words[n - 1])
    else LastNumber(words, n - 1)
  }

  /** The last number before the last matching keyword that has one before it. */
  function Answer(words: seq<string>, n: nat, keyword: string): Option<u64>
    requires n <= |words|
  {
    if n == 0 then None
    else if U64Text(words[n - 1]).None? && StartsWith(words[n - 1], keyword) && LastNumber(words, n - 1).Some?
      then LastNumber(words, n - 1)
    else Answer(words, n - 1, keyword)
  }

  function AnswerField(answer: Option<u64>): (f: U64Field)
    ensures f.Honest()
  {
    if answer.Some? then Available(answer.value) else Unavailable(ParseError, 0)
  }

  function AddressField(block: KeyValueMap, keyword: string): (f: U64Field)
    ensures f.Honest()
  {
    match MapValue(block, "address sizes")
    case None => Unavailable(NotFound, 0)
    case Some(text) => AnswerField(Answer(Words(text), |Words(text)|, keyword))
  }

  /** No line, and a line without an answer, are told apart. */
  lemma AddressFieldIs(block: KeyValueMap, keyword: string)
    ensures "address sizes" !in block || block["address sizes"] == "" ==>
              AddressField(block, keyword) == Unavailable(NotFound, 0)
    ensures "address sizes" in block && block["address sizes"] != "" ==>
              var words := Words(block["address sizes"]);
              AddressField(block, keyword) ==
              match Answer(words, |words|, keyword)
              case None => Unavailable(ParseError, 0)
              case Some(n) => Available(n)
  {
    hide Words, Answer;
  }

  method ParseAddressSizes(block: KeyValueMap, physical0: U64Field, virtual0: U64Field)
    returns (physical: U64Field, virtualBits: U64Field)
    ensures physical == AddressField(block, "physical")
    ensures virtualBits == AddressField(block, "virtual")
  {
    hide Words, U64Text;
    physical, virtualBits := physical0, virtual0;
    var text := MapValue(block, "address sizes");
    if text == None {
      return Unavailable(NotFound, 0), Unavailable(NotFound, 0);
    }
    var words := Words(text.value);
    var lastNumber: u64, haveNumber := 0, false;
    var foundPhysical, foundVirtual := false, false;
    for i := 0 to |words|
      invariant LastNumber(words, i) == if haveNumber then Some(lastNumber) else None
      invariant foundPhysical <==> Answer(words, i, "physical").Some?
      invariant foundVirtual <==> Answer(words, i, "virtual").Some?
      invariant foundPhysical ==> physical == AnswerField(Answer(words, i, "physical"))
      invariant foundVirtual ==> virtualBits == AnswerField(Answer(words, i, "virtual"))
    {
      var word := words[i];
      OneKeyword(word);
      var parsed := ParseU64(word);
      if parsed.Some? {
        lastNumber := parsed.value;
        haveNumber := true;
        continue;
      }
      if haveNumber && StartsWith(word, "physical") {
        physical := Available(lastNumber);
        foundPhysical := true;
      } else if haveNumber && StartsWith(word, "virtual") {
        virtualBits := Available(lastNumber);
        foundVirtual := true;
      }
    }
    if !foundPhysical {
      physical := Unavailable(ParseError, 0);
    }
    if !foundVirtual {
      virtualBits := Unavailable(ParseError, 0);
    }
  }

  lemma OneKeyword(word: string)
    ensures !(StartsWith(word, "physical") && StartsWith(word, "virtual"))
  {
    if StartsWith(word, "physical") {
      assert word[0] == 'p' && "virtual"[0] == 'v';
    }
  }

  // What the answer is, stated by positions.

  predicate IsNumber(word: string) {
    U64Text(word).Some?
  }

  ghost predicate NumberBefore(words: seq<string>, k: nat)
    requires k <= |words|
  {
    exists j :: 0 <= j < k && IsNumber(words[j])
  }

  /** A keyword at position k, after a number. */
  ghost predicate Answers(words: seq<string>, k: nat, keyword: string)
    requires k < |words|
  {
    !IsNumber(words[k]) && StartsWith(words[k], keyword) && NumberBefore(words, k)
  }

  /** The last number before position k stands at j. */
  ghost predicate LastAt(words: seq<string>, k: nat, j: nat)
    requires k <= |words|
  {
    j < k && IsNumber(words[j]) && forall i :: j < i < k ==> !IsNumber(words[i])
  }

  lemma {:induction false} LastNumberIs(words: seq<string>, k: nat)
    requires k <= |words|
    ensures LastNumber(words, k).Some? <==> NumberBefore(words, k)
    ensures LastNumber(words, k).Some? ==>
              exists j: nat :: LastAt(words, k, j) && U64Text(words[j]) == LastNumber(words, k)
  {
    hide U64Text;
    if k > 0 {
      if IsNumber(words[k - 1]) {
        assert LastAt(words, k, k - 1);
      } else {
        LastNumberIs(words, k - 1);
        if LastNumber(words, k).Some? {
          var j: nat :| LastAt(words, k - 1, j) && U64Text(words[j]) == LastNumber(words, k);
          assert LastAt(words, k, j);
        }
      }
    }
  }

  /** The last number seen before the last keyword that follows a number; nothing exactly
      when no keyword follows one. */
  lemma {:induction false} AnswerIs(words: seq<string>, n: nat, keyword: string)
    requires n <= |words|
    ensures Answer(words, n, keyword) == None <==> forall k :: 0 <= k < n ==> !Answers(words, k, keyword)
    ensures Answer(words, n, keyword).Some? ==>
              exists k, j: nat ::
                && 0 <= k < n && Answers(words, k, keyword) && LastAt(words, k, j)
                && U64Text(words[j]) == Answer(words, n, keyword)
                && forall i :: k < i < n ==> !Answers(words, i, keyword)
  {
    hide U64Text, NumberBefore, LastAt;
    if n > 0 {
      LastNumberIs(words, n - 1);
      AnswerIs(words, n - 1, keyword);
      assert Answers(words, n - 1, keyword) ==> Answer(words, n, keyword).Some?;
    }
  }

  /** One clause of the line, as the kernel prints it. */
  function Clause(n: nat, keyword: string): string {
    Decimal(n) + " bits " + keyword
  }

  lemma PlainWord(s: string)
    requires s != "" && IsLetterLike(s[0])
    ensures U64Text(s) == None
  {
    assert TrimLeft(s) == s;
    var q := TrimRightSplits(s);
    var c := CString(Trim(s));
    var r := TrimRightSplits(c);
    var body := Payload(s);
    if body != "" {
      assert body[0] == s[0] && body[0] in body;
    }
  }

  /** No number starts with one of these letters. */
  predicate IsLetterLike(c: char) {
    'b' == c || 'p' == c || 'v' == c
  }

  lemma NumeralWord(n: nat)
    requires n <= U64_MAX
    ensures U64Text(Decimal(n)) == Some(n) && Decimal(n) != ""
    ensures forall c <- Decimal(n) :: !IsSpace(c)
  {
    U64OfDecimal("", n, "");
    assert "" + Decimal(n) + "" == Decimal(n);
  }

  /** A clause is three words, whatever follows the gap after it. */
  lemma ClauseWords(p: string, n: nat, keyword: string, rest: string)
    requires n <= U64_MAX && AllSpace(p)
    requires keyword != "" && forall c <- keyword :: !IsSpace(c)
    requires rest == "" || IsSpace(rest[0])
    ensures Words(p + Clause(n, keyword) + rest) == [Decimal(n), "bits", keyword] + Words(rest)
  {
    hide Words, Decimal, U64Text;
    NumeralWord(n);
    var afterNumber := " bits " + keyword + rest;
    var afterBits := " " + keyword + rest;
    WordsFirst(p, Decimal(n), afterNumber);
    assert " " + "bits" + afterBits == afterNumber;
    WordsFirst(" ", "bits", afterBits);
    WordsFirst(" ", keyword, rest);
    ClauseSplits(p, Decimal(n), keyword, rest);
    assert [Decimal(n)] + (["bits"] + ([keyword] + Words(rest))) == [Decimal(n), "bits", keyword] + Words(rest);
  }

  lemma ClauseSplits(p: string, d: string, keyword: string, rest: string)
    ensures p + (d + " bits " + keyword) + rest == p + d + (" bits " + keyword + rest)
  {}

  /** Both clauses, in either order, give exactly their two numbers. */
  lemma AddressSizesRoundTrip(block: KeyValueMap, p: u64, v: u64, physicalFirst: bool)
    requires MapValue(block, "address sizes") ==
             Some(if physicalFirst then Clause(p, "physical") + ", " + Clause(v, "virtual")
                  else Clause(v, "virtual") + ", " + Clause(p, "physical"))
    ensures AddressField(block, "physical") == Available(p)
    ensures AddressField(block, "virtual") == Available(v)
  {
    hide Words, U64Text, Decimal, Clause;
    if physicalFirst {
      TwoClauses(p, "physical", v, "virtual");
    } else {
      TwoClauses(v, "virtual", p, "physical");
    }
  }

  lemma TwoClauses(m: u64, first: string, n: u64, second: string)
    requires (first == "physical" && second == "virtual") || (first == "virtual" && second == "physical")
    ensures var words := Words(Clause(m, first) + ", " + Clause(n, second));
            && Answer(words, |words|, first) == Some(m)
            && Answer(words, |words|, second) == Some(n)
  {
    hide Words, U64Text, Decimal;
    var comma := first + ",";
    NoWords("");
    ClauseWords(" ", n, second, "");
    ClauseWords("", m, comma, " " + Clause(n, second));
    TwoSplit(Decimal(m), first, Clause(n, second));
    var words := [Decimal(m), "bits", comma, Decimal(n), "bits", second];
    assert [Decimal(m), "bits", comma] + [Decimal(n), "bits", second] == words;
    assert [Decimal(n), "bits", second] + [] == [Decimal(n), "bits", second];
    assert " " + Clause(n, second) + "" == " " + Clause(n, second);
    NumeralWord(m);
    NumeralWord(n);
    PlainWord("bits");
    PlainWord(comma);
    PlainWord(second);
    SixWords(words, m, first, n, second);
  }

  lemma TwoSplit(d: string, first: string, rest: string)
    ensures "" + (d + " bits " + (first + ",")) + (" " + rest) == (d + " bits " + first) + ", " + rest
  {}

  lemma SixWords(words: seq<string>, m: u64, first: string, n: u64, second: string)
    requires (first == "physical" && second == "virtual") || (first == "virtual" && second == "physical")
    requires |words| == 6 && words[2] == first + "," && words[5] == second && words[1] == "bits" && words[4] == "bits"
    requires U64Text(words[0]) == Some(m) && U64Text(words[3]) == Some(n)
    requires U64Text(words[1]) == None && U64Text(words[2]) == None
    requires U64Text(words[4]) == None && U64Text(words[5]) == None
    ensures Answer(words, 6, first) == Some(m)
    ensures Answer(words, 6, second) == Some(n)
  {
    hide U64Text;
    OneKeyword(words[2]);
    OneKeyword(words[5]);
    assert LastNumber(words, 1) == Some(m) && LastNumber(words, 2) == Some(m);
    assert LastNumber(words, 4) == Some(n) && LastNumber(words, 5) == Some(n);
    assert !StartsWith("bits", first) by { assert "bits"[0] == 'b' && first[0] != 'b'; }
    assert Answer(words, 3, first) == Some(m);
    assert Answer(words, 4, first) == Some(m);
    assert Answer(words, 5, first) == Some(m);
  }
}
