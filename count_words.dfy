/**
  Word counting (`countWords` and the counting and sorting part of
  `CountWords`).  Text is split into maximal runs of letters and digits
  (`strings.FieldsFunc` with "neither a letter nor a number" as the
  separator test), each distinct token is counted, and the counts are listed
  by descending count.  Letters and digits are taken to be the ASCII ones and
  lower-casing is ASCII lower-casing.
 */
module Words {

  /** Letter or digit: a character that belongs to a word. */
  predicate IsWordChar(c: char)
  {
    'a' <= c <= 'z' || 'A' <= c <= 'Z' || '0' <= c <= '9'
  }

  /** `strings.ToLower` on one character. */
  function LowerChar(c: char): char
  {
    if 'A' <= c <= 'Z' then (c as int + 32) as char else c
  }

  /** Lower-casing neither makes nor unmakes a word character, so splitting
      after lower-casing cuts the text at the same places. */
  lemma LowerKeepsWordChars(c: char)
    ensures IsWordChar(LowerChar(c)) <==> IsWordChar(c)
  {
  }

  /** `strings.ToLower`: no upper-case letter is left; every other character
      is kept; an upper-case letter becomes the lower-case letter at the same
      place in the alphabet. */
  function ToLower(s: string): (r: string)
    ensures |r| == |s|
    ensures forall i :: 0 <= i < |r| ==> !('A' <= r[i] <= 'Z')
    ensures forall i :: 0 <= i < |s| && !('A' <= s[i] <= 'Z') ==> r[i] == s[i]
    ensures forall i :: 0 <= i < |s| && 'A' <= s[i] <= 'Z' ==>
              'a' <= r[i] <= 'z' && r[i] as int - 'a' as int == s[i] as int - 'A' as int
  {
    seq(|s|, i requires 0 <= i < |s| => LowerChar(s[i]))
  }

  /** Lower-casing twice is lower-casing once. */
  lemma ToLowerIdempotent(s: string)
    ensures ToLower(ToLower(s)) == ToLower(s)
  {
  }

  /** Length of the run of word characters at the start of `s`. */
  function RunLength(s: string): (k: nat)
    ensures k <= |s|
    ensures forall i :: 0 <= i < k ==> IsWordChar(s[i])
    ensures k < |s| ==> !IsWordChar(s[k])
  {
    if s == [] || !IsWordChar(s[0]) then 0 else 1 + RunLength(s[1..])
  }

  /** `strings.FieldsFunc(s, not letter and not number)`: the maximal runs of
      word characters, left to right. */
  function Fields(s: string): (r: seq<string>)
    ensures forall k :: 0 <= k < |r| ==> IsWord(r[k])
    decreases |s|
  {
    if s == [] then []
    else if !IsWordChar(s[0]) then Fields(s[1..])
    else
      var k := RunLength(s);
      [s[..k]] + Fields(s[k..])
  }

  /** `t` stands at position `a` of `s` as a whole run: the characters there
      spell `t`, and the characters just before and just after it, where
      there are any, are separators. */
  predicate RunAt(s: string, t: string, a: int)
  {
    && 0 <= a && a + |t| <= |s| && s[a..a + |t|] == t
    && (a == 0 || !IsWordChar(s[a - 1]))
    && (a + |t| == |s| || !IsWordChar(s[a + |t|]))
  }

  /** `t` stands somewhere in `s` as a whole run. */
  ghost predicate IsRunOf(s: string, t: string)
  {
    exists a :: RunAt(s, t, a)
  }

  /** Every token is a maximal run of word characters of the input. */
  lemma {:induction false} FieldsAreRuns(s: string)
    ensures forall k :: 0 <= k < |Fields(s)| ==> IsRunOf(s, Fields(s)[k])
    decreases |s|
  {
    if s != [] {
      if !IsWordChar(s[0]) {
        FieldsAreRuns(s[1..]);
        SeparatorRuns(s, Fields(s[1..]));
        assert Fields(s) == Fields(s[1..]);
      } else {
        var n := RunLength(s);
        FieldsAreRuns(s[n..]);
        var rest := Fields(s[n..]);
        assert Fields(s) == [s[..n]] + rest;
        forall k | 0 <= k < |Fields(s)| ensures IsRunOf(s, Fields(s)[k]) {
          if k == 0 {
            assert s[0..n] == s[..n];
            assert RunAt(s, Fields(s)[k], 0);
          } else {
            var t := rest[k - 1];
            assert Fields(s)[k] == t;
            var a :| RunAt(s[n..], t, a);
            assert IsWordChar(s[n..][a]) by {
              assert s[n..][a..a + |t|][0] == t[0];
            }
            RunShift(s, n, t, a);
          }
        }
      }
    } else {
      assert Fields(s) == [];
    }
  }

  /** Dropping a leading separator keeps every run a run. */
  lemma SeparatorRuns(s: string, ts: seq<string>)
    requires s != [] && !IsWordChar(s[0])
    requires forall k :: 0 <= k < |ts| ==> IsRunOf(s[1..], ts[k])
    ensures forall k :: 0 <= k < |ts| ==> IsRunOf(s, ts[k])
  {
    forall k | 0 <= k < |ts| ensures IsRunOf(s, ts[k]) {
      var a :| RunAt(s[1..], ts[k], a);
      RunShift(s, 1, ts[k], a);
    }
  }

  /** A run of a suffix is a run of the whole text, provided it does not
      start right at the cut after a word character. */
  lemma RunShift(s: string, d: nat, t: string, a: int)
    requires d <= |s| && RunAt(s[d..], t, a)
    requires a == 0 ==> d == 0 || !IsWordChar(s[d - 1])
    ensures RunAt(s, t, a + d)
  {
    assert s[d..][a..a + |t|] == s[a + d..a + d + |t|];
    if a > 0 {
      assert s[d..][a - 1] == s[a + d - 1];
    }
    if a + |t| < |s[d..]| {
      assert s[d..][a + |t|] == s[a + d + |t|];
    }
  }

  lemma {:induction false} RunLengthSplit(a: string, sep: char, b: string)
    requires !IsWordChar(sep)
    ensures RunLength(a + [sep] + b) == RunLength(a)
  {
    if a == [] {
      assert (a + [sep] + b)[0] == sep;
    } else if IsWordChar(a[0]) {
      assert (a + [sep] + b)[1..] == a[1..] + [sep] + b;
      RunLengthSplit(a[1..], sep, b);
    }
  }

  /** A separator cuts the text into two independently tokenised parts. */
  lemma {:induction false} FieldsSplit(a: string, sep: char, b: string)
    requires !IsWordChar(sep)
    ensures Fields(a + [sep] + b) == Fields(a) + Fields(b)
    decreases |a|
  {
    var s := a + [sep] + b;
    if a == [] {
      assert s[1..] == b;
    } else if !IsWordChar(a[0]) {
      assert s[1..] == a[1..] + [sep] + b;
      FieldsSplit(a[1..], sep, b);
    } else {
      var k := RunLength(a);
      RunLengthSplit(a, sep, b);
      assert s[..k] == a[..k];
      assert s[k..] == a[k..] + [sep] + b;
      FieldsSplit(a[k..], sep, b);
    }
  }

  /** A non-empty run of word characters is a single token. */
  lemma {:induction false} FieldsOfWord(w: string)
    requires |w| > 0 && forall i :: 0 <= i < |w| ==> IsWordChar(w[i])
    ensures Fields(w) == [w]
  {
    RunLengthAll(w);
    assert w[..|w|] == w && w[|w|..] == [];
  }

  lemma {:induction false} RunLengthAll(w: string)
    requires forall i :: 0 <= i < |w| ==> IsWordChar(w[i])
    ensures RunLength(w) == |w|
  {
    if w != [] {
      RunLengthAll(w[1..]);
    }
  }

  /** A non-empty run of word characters. */
  predicate IsWord(w: string)
  {
    |w| > 0 && forall i :: 0 <= i < |w| ==> IsWordChar(w[i])
  }

  /** A non-empty run of separators. */
  predicate IsGap(g: string)
  {
    |g| > 0 && forall i :: 0 <= i < |g| ==> !IsWordChar(g[i])
  }

  /** Each word followed by its gap. */
  function Join(ws: seq<string>, gaps: seq<string>): (s: string)
    requires |gaps| == |ws|
  {
    if ws == [] then [] else ws[0] + gaps[0] + Join(ws[1..], gaps[1..])
  }

  /** Leading separators produce no token. */
  lemma {:induction false} SkipSeparators(g: string, rest: string)
    requires forall i :: 0 <= i < |g| ==> !IsWordChar(g[i])
    ensures Fields(g + rest) == Fields(rest)
  {
    if g != [] {
      assert g + rest != [] && (g + rest)[0] == g[0];
      assert !IsWordChar((g + rest)[0]);
      assert (g + rest)[1..] == g[1..] + rest;
      SkipSeparators(g[1..], rest);
    } else {
      assert g + rest == rest;
    }
  }

  /** Tokenising words joined by separators gives the words back. */
  lemma {:induction false} FieldsJoin(ws: seq<string>, gaps: seq<string>)
    requires |gaps| == |ws|
    requires forall k :: 0 <= k < |ws| ==> IsWord(ws[k]) && IsGap(gaps[k])
    ensures Fields(Join(ws, gaps)) == ws
  {
    if ws != [] {
      var w, g, rest := ws[0], gaps[0], Join(ws[1..], gaps[1..]);
      FieldsJoin(ws[1..], gaps[1..]);
      assert w + g + rest == w + [g[0]] + (g[1..] + rest);
      FieldsSplit(w, g[0], g[1..] + rest);
      FieldsOfWord(w);
      SkipSeparators(g[1..], rest);
      assert ws == [w] + ws[1..];
    }
  }

  /** Joining distributes over concatenation. */
  lemma {:induction false} JoinAppend(ws: seq<string>, gs: seq<string>, ws': seq<string>, gs': seq<string>)
    requires |ws| == |gs| && |ws'| == |gs'|
    ensures Join(ws + ws', gs + gs') == Join(ws, gs) + Join(ws', gs')
  {
    if ws == [] {
      assert ws + ws' == ws' && gs + gs' == gs';
    } else {
      JoinAppend(ws[1..], gs[1..], ws', gs');
      assert (ws + ws')[1..] == ws[1..] + ws' && (gs + gs')[1..] == gs[1..] + gs';
    }
  }

  /** How often each distinct token occurs. */
  function WordCount(words: seq<string>): map<string, nat>
  {
    map w | w in words :: multiset(words)[w]
  }

  /** `countWords`: tokenise, then bump a per-token counter that starts at
      zero for a token not seen before. */
  method CountOccurrences(input: string) returns (count: map<string, nat>)
    ensures forall w :: w in count <==> w in Fields(input)
    ensures forall w :: w in count ==> count[w] == multiset(Fields(input))[w]
    ensures count == WordCount(Fields(input))
  {
    var words := Fields(input);
    count := map[];
    var i := 0;
    while i < |words|
      invariant 0 <= i <= |words|
      invariant forall w :: w in count <==> w in words[..i]
      invariant forall w :: w in count ==> count[w] == multiset(words[..i])[w]
    {
      var word := words[i];
      assert words[..i + 1] == words[..i] + [word];
      count := count[word := (if word in count then count[word] else 0) + 1];
      i := i + 1;
    }
    assert words[..i] == words;
  }

  /** Every counted key is a maximal run of word characters of the input,
      and every count is at least one. */
  lemma CountKeysAreWords(s: string)
    ensures forall w :: w in WordCount(Fields(s)) ==> IsWord(w) && WordCount(Fields(s))[w] >= 1
    ensures forall w :: w in WordCount(Fields(s)) ==> IsRunOf(s, w)
  {
    FieldsAreRuns(s);
    forall w | w in WordCount(Fields(s))
      ensures IsWord(w) && WordCount(Fields(s))[w] >= 1 && IsRunOf(s, w)
    {
      var k :| 0 <= k < |Fields(s)| && Fields(s)[k] == w;
    }
  }

  /** One line of the sorted report. */
  datatype Entry = Entry(word: string, count: nat)

  predicate NonIncreasing(es: seq<Entry>)
  {
    forall i, j :: 0 <= i < j < |es| ==> es[i].count >= es[j].count
  }

  predicate DistinctWords(es: seq<Entry>)
  {
    forall i, j :: 0 <= i < j < |es| ==> es[i].word != es[j].word
  }

  /** Put `e` in front of the first entry whose count it reaches. */
  function Insert(e: Entry, es: seq<Entry>): (r: seq<Entry>)
    requires NonIncreasing(es)
    ensures multiset(r) == multiset(es) + multiset{e}
    ensures NonIncreasing(r)
  {
    if es == [] || es[0].count <= e.count then [e] + es
    else
      var rest := Insert(e, es[1..]);
      InsertFront(e, es, rest);
      [es[0]] + rest
  }

  /** Inserting an entry whose word is new keeps the words distinct. */
  lemma {:induction false} InsertDistinct(e: Entry, es: seq<Entry>)
    requires NonIncreasing(es) && DistinctWords(es) && forall x :: x in es ==> x.word != e.word
    ensures DistinctWords(Insert(e, es))
  {
    if es == [] || es[0].count <= e.count {
      var r := [e] + es;
      forall i, j | 0 <= i < j < |r| ensures r[i].word != r[j].word {
        assert r[j] == es[j - 1];
        if i > 0 {
          assert r[i] == es[i - 1];
        } else {
          assert es[j - 1] in es;
        }
      }
    } else {
      var tail := es[1..];
      assert DistinctWords(tail) by {
        forall i, j | 0 <= i < j < |tail| ensures tail[i].word != tail[j].word {
          assert tail[i] == es[i + 1] && tail[j] == es[j + 1];
        }
      }
      assert forall x :: x in tail ==> x in es;
      InsertDistinct(e, tail);
      InsertFrontDistinct(e, es, Insert(e, tail));
    }
  }

  /** Everything the recursive insertion returns comes from the tail or is `e`,
      so the head stays in front of it. */
  lemma InsertFront(e: Entry, es: seq<Entry>, rest: seq<Entry>)
    requires es != [] && es[0].count > e.count && NonIncreasing(es)
    requires multiset(rest) == multiset(es[1..]) + multiset{e} && NonIncreasing(rest)
    ensures multiset([es[0]] + rest) == multiset(es) + multiset{e}
    ensures NonIncreasing([es[0]] + rest)
  {
    var head := es[0];
    var r := [head] + rest;
    assert es == [head] + es[1..];
    forall x | x in rest ensures head.count >= x.count {
      assert x in multiset(rest);
      if x != e {
        assert x in multiset(es[1..]);
        var j :| 0 <= j < |es[1..]| && es[1..][j] == x;
        assert es[j + 1] == x;
      }
    }
    forall i, j | 0 <= i < j < |r| ensures r[i].count >= r[j].count {
      assert r[j] == rest[j - 1];
      if i > 0 {
        assert r[i] == rest[i - 1];
      } else {
        assert rest[j - 1] in rest;
      }
    }
  }

  /** The same for distinct words, when `e`'s word is new. */
  lemma InsertFrontDistinct(e: Entry, es: seq<Entry>, rest: seq<Entry>)
    requires es != [] && DistinctWords(es) && forall x :: x in es ==> x.word != e.word
    requires multiset(rest) == multiset(es[1..]) + multiset{e} && DistinctWords(rest)
    ensures DistinctWords([es[0]] + rest)
  {
    var head := es[0];
    var r := [head] + rest;
    forall x | x in rest ensures head.word != x.word {
      assert x in multiset(rest);
      if x != e {
        assert x in multiset(es[1..]);
        var j :| 0 <= j < |es[1..]| && es[1..][j] == x;
        assert es[j + 1] == x;
      } else {
        assert head in es;
      }
    }
    forall i, j | 0 <= i < j < |r| ensures r[i].word != r[j].word {
      assert r[j] == rest[j - 1];
      if i > 0 {
        assert r[i] == rest[i - 1];
      } else {
        assert rest[j - 1] in rest;
      }
    }
  }

  /** Sorting by descending count (the outcome `sort.Slice` promises with the
      comparison `count_i > count_j`; ties may come out in any order). */
  function SortByCount(es: seq<Entry>): (r: seq<Entry>)
    ensures multiset(r) == multiset(es)
    ensures NonIncreasing(r)
    ensures DistinctWords(es) ==> DistinctWords(r)
  {
    if es == [] then []
    else
      var rest := SortByCount(es[1..]);
      assert es == [es[0]] + es[1..];
      if DistinctWords(es) then
        HeadIsNew(es, rest);
        InsertDistinct(es[0], rest);
        Insert(es[0], rest)
      else
        Insert(es[0], rest)
  }

  /** With distinct words, the head's word occurs nowhere in a permutation of the tail. */
  lemma HeadIsNew(es: seq<Entry>, rest: seq<Entry>)
    requires es != [] && DistinctWords(es) && multiset(rest) == multiset(es[1..])
    ensures DistinctWords(es[1..])
    ensures forall x :: x in rest ==> x.word != es[0].word
  {
    forall x | x in rest ensures x.word != es[0].word {
      assert x in multiset(es[1..]);
      var j :| 0 <= j < |es[1..]| && es[1..][j] == x;
      assert es[j + 1] == x;
    }
    forall i, j | 0 <= i < j < |es[1..]| ensures es[1..][i].word != es[1..][j].word {
      assert es[1..][i] == es[i + 1] && es[1..][j] == es[j + 1];
    }
  }

  /**
    `CountWords` without the file read and the printing: lower-case the text,
    count it, list the (word, count) pairs, and sort them by descending count.
   */
  method CountWords(text: string) returns (sorted: seq<Entry>)
    ensures var counted := WordCount(Fields(ToLower(text)));
            forall e :: e in sorted <==> e.word in counted && counted[e.word] == e.count
    ensures DistinctWords(sorted)
    ensures NonIncreasing(sorted)
    ensures Sum(sorted) == |Fields(ToLower(text))|
    ensures forall e :: e in sorted ==> IsWord(e.word) && e.count >= 1
    ensures forall e, i :: e in sorted && 0 <= i < |e.word| ==> !('A' <= e.word[i] <= 'Z')
  {
    var normalized := ToLower(text);
    var counted := CountOccurrences(normalized);
    var entries: seq<Entry> := [];
    var remaining := counted.Keys;
    while remaining != {}
      invariant remaining <= counted.Keys
      invariant forall e :: e in entries <==> e.word in counted && e.word !in remaining && counted[e.word] == e.count
      invariant DistinctWords(entries)
      decreases remaining
    {
      var w :| w in remaining;
      var e := Entry(w, counted[w]);
      entries := entries + [e];
      remaining := remaining - {w};
    }
    sorted := SortByCount(entries);
    assert forall e :: e in sorted <==> e in entries by {
      forall e ensures e in sorted <==> e in entries {
        assert e in sorted <==> e in multiset(sorted);
        assert e in entries <==> e in multiset(entries);
      }
    }
    CountsSum(Fields(normalized), sorted);
    CountKeysAreWords(normalized);
    LowerKeys(text);
  }

  /** The words counted in a lower-cased text hold no upper-case letter. */
  lemma LowerKeys(text: string)
    ensures forall w, i :: w in WordCount(Fields(ToLower(text))) && 0 <= i < |w| ==> !('A' <= w[i] <= 'Z')
  {
    var normalized := ToLower(text);
    CountKeysAreWords(normalized);
    forall w, i | w in WordCount(Fields(normalized)) && 0 <= i < |w| ensures !('A' <= w[i] <= 'Z') {
      var a :| RunAt(normalized, w, a);
      assert w[i] == normalized[a..a + |w|][i] == normalized[a + i];
    }
  }

  function Sum(es: seq<Entry>): nat
  {
    if es == [] then 0 else Sum(es[..|es| - 1]) + es[|es| - 1].count
  }

  /** `c` copies of `w`. */
  function Copies(w: string, c: nat): (m: multiset<string>)
    ensures |m| == c
    ensures forall x :: m[x] == if x == w then c else 0
  {
    if c == 0 then multiset{} else Copies(w, c - 1) + multiset{w}
  }

  /** The tokens a list of entries stands for. */
  function Expand(es: seq<Entry>): (m: multiset<string>)
  {
    if es == [] then multiset{} else Expand(es[..|es| - 1]) + Copies(es[|es| - 1].word, es[|es| - 1].count)
  }

  /** The expansion holds as many tokens as the counts add up to. */
  lemma {:induction false} ExpandSize(es: seq<Entry>)
    ensures |Expand(es)| == Sum(es)
  {
    if es != [] {
      ExpandSize(es[..|es| - 1]);
    }
  }

  /** With distinct words, the expansion holds each listed word exactly its
      count times and nothing else. */
  lemma {:induction false} ExpandCounts(es: seq<Entry>)
    requires DistinctWords(es)
    ensures forall i :: 0 <= i < |es| ==> Expand(es)[es[i].word] == es[i].count
    ensures forall w :: (forall i :: 0 <= i < |es| ==> es[i].word != w) ==> Expand(es)[w] == 0
  {
    if es != [] {
      var init := es[..|es| - 1];
      DistinctInit(es);
      ExpandCounts(init);
      assert Expand(init)[es[|es| - 1].word] == 0 by {
        assert forall j :: 0 <= j < |init| ==> init[j] == es[j];
      }
      ExpandListed(es);
      ExpandUnlisted(es);
    }
  }

  /** The induction step for a listed word. */
  lemma ExpandListed(es: seq<Entry>)
    requires es != [] && DistinctWords(es)
    requires var init := es[..|es| - 1];
             forall i :: 0 <= i < |init| ==> Expand(init)[init[i].word] == init[i].count
    requires forall j :: 0 <= j < |es| - 1 ==> es[j].word != es[|es| - 1].word
    requires Expand(es[..|es| - 1])[es[|es| - 1].word] == 0
    ensures forall i :: 0 <= i < |es| ==> Expand(es)[es[i].word] == es[i].count
  {
    var init, last := es[..|es| - 1], es[|es| - 1];
    assert Expand(es) == Expand(init) + Copies(last.word, last.count);
    forall i | 0 <= i < |es| ensures Expand(es)[es[i].word] == es[i].count {
      if i < |init| {
        assert init[i] == es[i];
      }
    }
  }

  /** The induction step for a word that is not listed. */
  lemma ExpandUnlisted(es: seq<Entry>)
    requires es != []
    requires var init := es[..|es| - 1];
             forall w :: (forall i :: 0 <= i < |init| ==> init[i].word != w) ==> Expand(init)[w] == 0
    ensures forall w :: (forall i :: 0 <= i < |es| ==> es[i].word != w) ==> Expand(es)[w] == 0
  {
    var init, last := es[..|es| - 1], es[|es| - 1];
    assert Expand(es) == Expand(init) + Copies(last.word, last.count);
    forall w | (forall i :: 0 <= i < |es| ==> es[i].word != w) ensures Expand(es)[w] == 0 {
      assert forall j :: 0 <= j < |init| ==> init[j] == es[j];
    }
  }

  /** Dropping the last entry keeps the words distinct, and the last word
      occurs nowhere before it. */
  lemma DistinctInit(es: seq<Entry>)
    requires es != [] && DistinctWords(es)
    ensures DistinctWords(es[..|es| - 1])
    ensures forall j :: 0 <= j < |es| - 1 ==> es[j].word != es[|es| - 1].word
  {
    var init := es[..|es| - 1];
    forall i, j | 0 <= i < j < |init| ensures init[i].word != init[j].word {
      assert init[i] == es[i] && init[j] == es[j];
    }
  }

  /** When the entries list each counted word once with its count, the counts
      add up to the number of tokens. */
  lemma CountsSum(words: seq<string>, es: seq<Entry>)
    requires DistinctWords(es)
    requires forall e :: e in es <==> e.word in WordCount(words) && WordCount(words)[e.word] == e.count
    ensures Sum(es) == |words|
  {
    ExpandSize(es);
    ExpandCounts(es);
    var counted := WordCount(words);
    forall w ensures Expand(es)[w] == multiset(words)[w] {
      if w in words {
        var e := Entry(w, counted[w]);
        assert e in es;
        var i :| 0 <= i < |es| && es[i] == e;
      } else {
        forall i | 0 <= i < |es| ensures es[i].word != w {
          assert es[i] in es;
        }
      }
    }
    assert Expand(es) == multiset(words);
  }

  /** Text without letters or digits counts nothing. */
  lemma NoWordsNoCounts(s: string)
    requires forall i :: 0 <= i < |s| ==> !IsWordChar(s[i])
    ensures WordCount(Fields(s)) == map[]
  {
    SkipSeparators(s, []);
    assert s + [] == s;
  }
}
