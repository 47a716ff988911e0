/**
  The word-count example of the tests: the sentence
  `Use.proper tool for proper|thing. Use.proper tool for proper|thing.`
 */
module WordsExample {
  import opened Words

  /** Joining one more word in front. */
  lemma JoinCons(w: string, g: string, ws: seq<string>, gs: seq<string>)
    requires |ws| == |gs|
    ensures Join([w] + ws, [g] + gs) == w + g + Join(ws, gs)
  {
    assert ([w] + ws)[1..] == ws && ([g] + gs)[1..] == gs;
  }

  /** One half of the sentence of the tests, with the separators that end it. */
  lemma HalfJoin(last: string)
    ensures Join(["Use", "proper", "tool", "for", "proper", "thing"], [".", " ", " ", " ", "|", last])
            == "Use.proper tool for proper|thing" + last
  {
    HalfMiddle(last);
    JoinCons("Use", ".", ["proper", "tool", "for", "proper", "thing"], [" ", " ", " ", "|", last]);
  }

  lemma HalfMiddle(last: string)
    ensures Join(["proper", "tool", "for", "proper", "thing"], [" ", " ", " ", "|", last])
            == "proper tool for proper|thing" + last
  {
    HalfTail(last);
    JoinCons("tool", " ", ["for", "proper", "thing"], [" ", "|", last]);
    JoinCons("proper", " ", ["tool", "for", "proper", "thing"], [" ", " ", "|", last]);
  }

  lemma HalfTail(last: string)
    ensures Join(["for", "proper", "thing"], [" ", "|", last]) == "for proper|thing" + last
  {
    JoinCons("thing", last, [], []);
    assert ["thing"] == ["thing"] + [] && [last] == [last] + [];
    JoinCons("proper", "|", ["thing"], [last]);
    JoinCons("for", " ", ["proper", "thing"], ["|", last]);
  }

  /** The sentence of the tests, as its words and the separators after each. */
  const TestWords: seq<string> :=
    ["Use", "proper", "tool", "for", "proper", "thing", "Use", "proper", "tool", "for", "proper", "thing"]
  const TestGaps: seq<string> := [".", " ", " ", " ", "|", ". ", ".", " ", " ", " ", "|", "."]

  /** Joined up, they are the sentence of the tests. */
  lemma TestSentence()
    ensures Join(TestWords, TestGaps) == "Use.proper tool for proper|thing. Use.proper tool for proper|thing."
  {
    var half := ["Use", "proper", "tool", "for", "proper", "thing"];
    var first, second := [".", " ", " ", " ", "|", ". "], [".", " ", " ", " ", "|", "."];
    assert TestWords == half + half && TestGaps == first + second;
    JoinAppend(half, first, half, second);
    HalfJoin(". ");
    HalfJoin(".");
    SentenceHalves();
  }

  lemma SentenceHalves()
    ensures "Use.proper tool for proper|thing" + ". " + ("Use.proper tool for proper|thing" + ".")
            == "Use.proper tool for proper|thing. Use.proper tool for proper|thing."
  {
    FirstHalf();
    SecondHalf();
    BothHalves();
  }

  lemma FirstHalf()
    ensures "Use.proper tool for proper|thing" + ". " == "Use.proper tool for proper|thing. "
  {
  }

  lemma SecondHalf()
    ensures "Use.proper tool for proper|thing" + "." == "Use.proper tool for proper|thing."
  {
  }

  lemma BothHalves()
    ensures "Use.proper tool for proper|thing. " + "Use.proper tool for proper|thing."
            == "Use.proper tool for proper|thing. Use.proper tool for proper|thing."
  {
  }

  /** Counting a six-word half that repeats its second word, said twice. */
  lemma CountTwice(a: string, b: string, c: string, d: string, e: string)
    requires a != b && a != c && a != d && a != e && b != c && b != d && b != e && c != d && c != e && d != e
    ensures WordCount([a, b, c, d, b, e] + [a, b, c, d, b, e]) == map[a := 2, b := 4, c := 2, d := 2, e := 2]
  {
    var m, expected := WordCount([a, b, c, d, b, e] + [a, b, c, d, b, e]), map[a := 2, b := 4, c := 2, d := 2, e := 2];
    TwiceKeys(a, b, c, d, e);
    TwiceCounts(a, b, c, d, e);
    assert m.Keys == expected.Keys;
  }

  lemma TwiceKeys(a: string, b: string, c: string, d: string, e: string)
    ensures WordCount([a, b, c, d, b, e] + [a, b, c, d, b, e]).Keys == {a, b, c, d, e}
  {
    var ws := [a, b, c, d, b, e] + [a, b, c, d, b, e];
    HalfTwice(a, b, c, d, e);
    var counts := multiset{a, b, c, d, b, e} + multiset{a, b, c, d, b, e};
    forall w ensures w in ws <==> w in {a, b, c, d, e} {
      assert w in ws <==> w in multiset(ws);
      assert w in counts <==> w in {a, b, c, d, e};
    }
  }

  lemma TwiceCounts(a: string, b: string, c: string, d: string, e: string)
    requires a != b && a != c && a != d && a != e && b != c && b != d && b != e && c != d && c != e && d != e
    ensures var m := WordCount([a, b, c, d, b, e] + [a, b, c, d, b, e]);
            a in m && b in m && c in m && d in m && e in m &&
            m[a] == 2 && m[b] == 4 && m[c] == 2 && m[d] == 2 && m[e] == 2
  {
    var ws := [a, b, c, d, b, e] + [a, b, c, d, b, e];
    HalfTwice(a, b, c, d, e);
    var counts := multiset{a, b, c, d, b, e} + multiset{a, b, c, d, b, e};
    assert counts[a] == 2 && counts[b] == 4 && counts[c] == 2 && counts[d] == 2 && counts[e] == 2;
    assert ws[0] == a && ws[1] == b && ws[2] == c && ws[3] == d && ws[5] == e;
  }

  lemma HalfTwice(a: string, b: string, c: string, d: string, e: string)
    ensures multiset([a, b, c, d, b, e] + [a, b, c, d, b, e]) == multiset{a, b, c, d, b, e} + multiset{a, b, c, d, b, e}
  {
    var half := [a, b, c, d, b, e];
    assert multiset(half + half) == multiset(half) + multiset(half);
  }

  /** The sentence of the tests tokenises into its twelve words. */
  lemma ExampleFields()
    ensures Fields(Join(TestWords, TestGaps)) == TestWords
  {
    var ws, gs := TestWords, TestGaps;
    forall k | 0 <= k < |ws| ensures IsWord(ws[k]) && IsGap(gs[k]) {
    }
    FieldsJoin(ws, gs);
  }

  /** Counting the sentence of the tests gives `Use` 2, `proper` 4, `tool` 2,
      `for` 2, `thing` 2. */
  lemma ExampleCount()
    ensures WordCount(Fields("Use.proper tool for proper|thing. Use.proper tool for proper|thing."))
            == map["Use" := 2, "proper" := 4, "tool" := 2, "for" := 2, "thing" := 2]
  {
    TestSentence();
    ExampleFields();
    TestWordsHalves();
    DistinctTestWords();
    CountTwice("Use", "proper", "tool", "for", "thing");
  }

  lemma TestWordsHalves()
    ensures TestWords == ["Use", "proper", "tool", "for", "proper", "thing"] + ["Use", "proper", "tool", "for", "proper", "thing"]
  {
  }

  lemma DistinctTestWords()
    ensures "Use" != "proper" && "Use" != "tool" && "Use" != "for" && "Use" != "thing"
    ensures "proper" != "tool" && "proper" != "for" && "proper" != "thing"
    ensures "tool" != "for" && "tool" != "thing" && "for" != "thing"
  {
  }
}
