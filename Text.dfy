/** Words of a text: what the crawler's cursor walks over.

    A word is a maximal run of non-space characters; the space character
    ' ' is the only delimiter, and a run of several spaces separates two
    words exactly as one space does.  Offsets are plain integers into the
    text, standing for the crawler's character pointers.
 */
module Text {

  /** A text the crawler can walk: non-empty, with neither a leading nor a
      trailing space. */
  predicate WellFormed(t: string) {
    |t| > 0 && t[0] != ' ' && t[|t| - 1] != ' '
  }

  /** A word as the crawler returns it: non-empty and free of spaces. */
  predicate IsWord(w: string) {
    |w| > 0 && ' ' !in w
  }

  /** Offset p holds the first character of a word. */
  predicate IsWordStart(t: string, p: int) {
    0 <= p < |t| && t[p] != ' ' && (p == 0 || t[p - 1] == ' ')
  }

  /** The first offset at or after i that holds a space, or |t| when there
      is none: the exclusive end of a word that starts at i. */
  function WordEnd(t: string, i: nat): (e: nat)
    requires i <= |t|
    ensures i <= e <= |t|
    ensures e == |t| || t[e] == ' '
    ensures forall j :: i <= j < e ==> t[j] != ' '
    decreases |t| - i
  {
    if i == |t| || t[i] == ' ' then i else WordEnd(t, i + 1)
  }

  /** The word-start offsets at or after i, in increasing order (see
      StartsFromSorted). */
  function StartsFrom(t: string, i: nat): (s: seq<nat>)
    requires i <= |t|
    ensures forall j :: 0 <= j < |s| ==> i <= s[j] < |t|
    decreases |t| - i
  {
    if i == |t| then []
    else if IsWordStart(t, i) then [i] + StartsFrom(t, i + 1)
    else StartsFrom(t, i + 1)
  }

  /** StartsFrom(t, i) holds exactly the word starts at or after i, each
      once and in increasing order. */
  lemma {:induction false} StartsFromSorted(t: string, i: nat)
    requires i <= |t|
    ensures forall j :: 0 <= j < |StartsFrom(t, i)| ==>
      i <= StartsFrom(t, i)[j] && IsWordStart(t, StartsFrom(t, i)[j])
    ensures forall j, l :: 0 <= j < l < |StartsFrom(t, i)| ==>
      StartsFrom(t, i)[j] < StartsFrom(t, i)[l]
    ensures forall p :: i <= p && IsWordStart(t, p) ==> p in StartsFrom(t, i)
    decreases |t| - i
  {
    if i < |t| {
      StartsFromSorted(t, i + 1);
    }
  }

  /** Every offset of t that starts a word, in increasing order. */
  function Starts(t: string): seq<nat> {
    StartsFrom(t, 0)
  }

  /** The words of t[i..], left to right: a space is skipped, a non-space
      opens a word that runs up to the next space or the end of t. */
  function WordsFrom(t: string, i: nat): seq<string>
    requires i <= |t|
    decreases |t| - i
  {
    if i == |t| then []
    else if t[i] == ' ' then WordsFrom(t, i + 1)
    else [t[i..WordEnd(t, i)]] + WordsFrom(t, WordEnd(t, i))
  }

  /** Every word of t[i..] is non-empty and holds no space: a run of
      several spaces yields no empty word. */
  lemma {:induction false} WordsFromAreWords(t: string, i: nat)
    requires i <= |t|
    ensures forall k :: 0 <= k < |WordsFrom(t, i)| ==> IsWord(WordsFrom(t, i)[k])
    decreases |t| - i
  {
    if i < |t| {
      var e := WordEnd(t, i);
      if t[i] == ' ' {
        WordsFromAreWords(t, i + 1);
      } else {
        WordsFromAreWords(t, e);
        assert ' ' !in t[i..e] by {
          forall j | 0 <= j < e - i
            ensures t[i..e][j] != ' '
          {
          }
        }
        assert WordsFrom(t, i) == [t[i..e]] + WordsFrom(t, e);
      }
    }
  }

  /** The words of t. */
  function Words(t: string): seq<string> {
    WordsFrom(t, 0)
  }

  /** Offset i is not inside a word: it is at either end of t, or next to a
      space. */
  predicate AtBoundary(t: string, i: nat)
    requires i <= |t|
  {
    i == 0 || i == |t| || t[i - 1] == ' ' || t[i] == ' '
  }

  /** A stretch of offsets holding no word start adds nothing to the starts. */
  lemma {:induction false} StartsSkip(t: string, a: nat, b: nat)
    requires a <= b <= |t|
    requires forall p :: a <= p < b ==> !IsWordStart(t, p)
    ensures StartsFrom(t, a) == StartsFrom(t, b)
    decreases b - a
  {
    if a < b {
      StartsSkip(t, a + 1, b);
    }
  }

  /** From offset i on, the k-th word is the text from the k-th word start
      up to the next space. */
  predicate WordsMatchStarts(t: string, i: nat)
    requires i <= |t|
  {
    |WordsFrom(t, i)| == |StartsFrom(t, i)| &&
    forall k :: 0 <= k < |WordsFrom(t, i)| ==>
      WordsFrom(t, i)[k] == t[StartsFrom(t, i)[k]..WordEnd(t, StartsFrom(t, i)[k])]
  }

  /** From a boundary on, the split and the starts describe the same words. */
  lemma {:induction false} WordsFromStarts(t: string, i: nat)
    requires i <= |t| && AtBoundary(t, i)
    ensures WordsMatchStarts(t, i)
    decreases |t| - i
  {
    if i == |t| {
    } else if t[i] == ' ' {
      WordsFromStarts(t, i + 1);
    } else {
      WordsFromStarts(t, WordEnd(t, i));
      WordStartStep(t, i);
    }
  }

  /** A word that opens at a boundary puts its start and its text in front
      of those of the rest of the text. */
  lemma WordStartStep(t: string, i: nat)
    requires i < |t| && t[i] != ' ' && AtBoundary(t, i)
    requires WordsMatchStarts(t, WordEnd(t, i))
    ensures WordsMatchStarts(t, i)
  {
    var e := WordEnd(t, i);
    StartsSkip(t, i + 1, e);
    var ws, ss := WordsFrom(t, e), StartsFrom(t, e);
    assert IsWordStart(t, i);
    assert StartsFrom(t, i) == [i] + ss;
    assert WordsFrom(t, i) == [t[i..e]] + ws;
    forall k | 0 < k < |WordsFrom(t, i)|
      ensures WordsFrom(t, i)[k] == t[StartsFrom(t, i)[k]..WordEnd(t, StartsFrom(t, i)[k])]
    {
      assert WordsFrom(t, i)[k] == ws[k - 1];
      assert StartsFrom(t, i)[k] == ss[k - 1];
    }
  }

  /** There is one word per word start, and the k-th word runs from the
      k-th start up to the next space or the end of the text. */
  lemma WordsAtStarts(t: string)
    ensures |Words(t)| == |Starts(t)|
    ensures forall k :: 0 <= k < |Words(t)| ==>
      Words(t)[k] == t[Starts(t)[k]..WordEnd(t, Starts(t)[k])]
  {
    WordsFromStarts(t, 0);
  }

  /** A text that begins with a non-space has its first word at offset 0. */
  lemma FirstStart(t: string)
    requires |t| > 0 && t[0] != ' '
    ensures |Starts(t)| > 0 && Starts(t)[0] == 0
  {
    assert IsWordStart(t, 0);
  }

  /** The k-th word ends before the (k+1)-th word starts. */
  lemma WordEndBeforeNext(t: string, k: nat)
    requires k + 1 < |Starts(t)|
    ensures WordEnd(t, Starts(t)[k]) < Starts(t)[k + 1]
  {
    StartsFromSorted(t, 0);
    var s := Starts(t);
    assert IsWordStart(t, s[k + 1]) && s[k] < s[k + 1];
    assert t[s[k + 1] - 1] == ' ';
  }

  /** A word start after the k-th one, with no word start in between, is
      the (k+1)-th. */
  lemma NextStart(t: string, k: nat, q: nat)
    requires k + 1 < |Starts(t)|
    requires Starts(t)[k] < q && IsWordStart(t, q)
    requires forall p :: Starts(t)[k] < p < q ==> !IsWordStart(t, p)
    ensures Starts(t)[k + 1] == q
  {
    StartsFromSorted(t, 0);
    var s := Starts(t);
    assert q in s;
    var j :| 0 <= j < |s| && s[j] == q;
    assert k < j;
    assert s[k + 1] <= q;
    assert IsWordStart(t, s[k + 1]);
  }

  /** A word start before the k-th one, with no word start in between, is
      the (k-1)-th. */
  lemma PrevStart(t: string, k: nat, q: nat)
    requires 0 < k < |Starts(t)|
    requires q < Starts(t)[k] && IsWordStart(t, q)
    requires forall p :: q < p < Starts(t)[k] ==> !IsWordStart(t, p)
    ensures Starts(t)[k - 1] == q
  {
    StartsFromSorted(t, 0);
    var s := Starts(t);
    assert q in s;
    var j :| 0 <= j < |s| && s[j] == q;
    assert j < k;
    assert q <= s[k - 1];
    assert IsWordStart(t, s[k - 1]);
  }

  /** A word start with no word start after it is the last one. */
  lemma LastStart(t: string, q: nat)
    requires IsWordStart(t, q)
    requires forall p :: q < p < |t| ==> !IsWordStart(t, p)
    ensures |Starts(t)| > 0 && Starts(t)[|Starts(t)| - 1] == q
  {
    StartsFromSorted(t, 0);
    var s := Starts(t);
    assert q in s;
    var j :| 0 <= j < |s| && s[j] == q;
    assert IsWordStart(t, s[|s| - 1]);
    assert j == |s| - 1;
  }

  /** Extending a prefix of ws by one word adds one to the count of w
      exactly when that word is w. */
  lemma CountPrefix(ws: seq<string>, k: nat, w: string)
    requires k < |ws|
    ensures multiset(ws[..k + 1])[w] == multiset(ws[..k])[w] + (if ws[k] == w then 1 else 0)
  {
    assert ws[..k + 1] == ws[..k] + [ws[k]];
  }

  /** n space characters. */
  function Spaces(n: nat): (sp: string)
    ensures |sp| == n && forall j :: 0 <= j < n ==> sp[j] == ' '
  {
    seq(n, _ => ' ')
  }

  /** The words written out with one space between neighbours. */
  function Join(ws: seq<string>): string
    decreases |ws|
  {
    if |ws| == 0 then []
    else if |ws| == 1 then ws[0]
    else ws[0] + " " + Join(ws[1..])
  }

  /** A word end found inside u is not moved by text appended after u. */
  lemma {:induction false} WordEndAppend(u: string, v: string, i: nat)
    requires i <= |u| && WordEnd(u, i) < |u|
    ensures WordEnd(u + v, i) == WordEnd(u, i)
    decreases |u| - i
  {
    if u[i] != ' ' {
      WordEndAppend(u, v, i + 1);
    }
  }

  /** A word end found inside v is shifted by |u| when u is put in front. */
  lemma {:induction false} WordEndPrepend(u: string, v: string, j: nat)
    requires j <= |v|
    ensures WordEnd(u + v, |u| + j) == |u| + WordEnd(v, j)
    decreases |v| - j
  {
    if j < |v| && v[j] != ' ' {
      WordEndPrepend(u, v, j + 1);
    }
  }

  /** The words of v are not changed by text put in front of it. */
  lemma {:induction false} WordsFromPrepend(u: string, v: string, j: nat)
    requires j <= |v|
    ensures WordsFrom(u + v, |u| + j) == WordsFrom(v, j)
    decreases |v| - j
  {
    if j == |v| {
    } else if v[j] == ' ' {
      WordsFromPrepend(u, v, j + 1);
    } else {
      var e := WordEnd(v, j);
      WordEndPrepend(u, v, j);
      WordsFromPrepend(u, v, e);
      calc {
        WordsFrom(u + v, |u| + j);
        [(u + v)[|u| + j..|u| + e]] + WordsFrom(u + v, |u| + e);
        { assert (u + v)[|u| + j..|u| + e] == v[j..e]; }
        [v[j..e]] + WordsFrom(v, e);
        WordsFrom(v, j);
      }
    }
  }

  /** When u is empty or ends with a space, the words of u + v are the
      words of u followed by the words of v. */
  lemma {:induction false} WordsFromAppend(u: string, v: string, i: nat)
    requires i <= |u| && (|u| == 0 || u[|u| - 1] == ' ')
    ensures WordsFrom(u + v, i) == WordsFrom(u, i) + Words(v)
    decreases |u| - i
  {
    if i == |u| {
      WordsFromPrepend(u, v, 0);
    } else if u[i] == ' ' {
      WordsFromAppend(u, v, i + 1);
    } else {
      var e := WordEnd(u, i);
      WordEndAppend(u, v, i);
      assert (u + v)[i..e] == u[i..e];
      WordsFromAppend(u, v, e);
    }
  }

  /** Spaces in front of a text add no words. */
  lemma {:induction false} LeadingSpaces(n: nat, t: string)
    ensures Words(Spaces(n) + t) == Words(t)
  {
    WordsFromAppend(Spaces(n), t, 0);
    WordsSkipSpaces(Spaces(n), 0);
  }

  /** A stretch of spaces from i to the end of t holds no words. */
  lemma {:induction false} WordsSkipSpaces(t: string, i: nat)
    requires i <= |t|
    requires forall j :: i <= j < |t| ==> t[j] == ' '
    ensures WordsFrom(t, i) == []
    decreases |t| - i
  {
    if i < |t| {
      WordsSkipSpaces(t, i + 1);
    }
  }

  /** Any run of one or more spaces separates two words exactly as a single
      space does: no empty word comes out of a longer run. */
  lemma SpaceRunsCollapse(a: string, n: nat, b: string)
    requires n >= 1
    ensures Words(a + Spaces(n) + b) == Words(a + " " + b)
  {
    var u := a + " ";
    assert a + Spaces(n) + b == u + (Spaces(n - 1) + b);
    WordsFromAppend(u, Spaces(n - 1) + b, 0);
    LeadingSpaces(n - 1, b);
    assert a + " " + b == u + b;
    WordsFromAppend(u, b, 0);
  }

  /** A single word is its own only word, also when a space follows it. */
  lemma OneWord(w: string, tail: string)
    requires IsWord(w) && (tail == [] || tail == " ")
    ensures Words(w + tail) == [w]
  {
    var t := w + tail;
    var e := WordEnd(t, 0);
    forall j | 0 <= j < |w|
      ensures t[j] != ' '
    {
      assert t[j] == w[j] && w[j] in w;
    }
    assert |w| <= e;
    assert tail == [] || t[|w|] == ' ';
    assert e == |w|;
    assert t[0..e] == w;
    WordsSkipSpaces(t, e);
  }

  /** Splitting the space-joined words gives them back. */
  lemma {:induction false} JoinWords(ws: seq<string>)
    requires forall k :: 0 <= k < |ws| ==> IsWord(ws[k])
    ensures Words(Join(ws)) == ws
    decreases |ws|
  {
    if |ws| == 1 {
      OneWord(ws[0], []);
      assert ws[0] + [] == ws[0];
    } else if |ws| > 1 {
      var u := ws[0] + " ";
      JoinWords(ws[1..]);
      assert Join(ws) == u + Join(ws[1..]);
      WordsFromAppend(u, Join(ws[1..]), 0);
      OneWord(ws[0], " ");
      assert ws == [ws[0]] + ws[1..];
    }
  }

  /** Three words separated by single spaces. */
  lemma ThreeWords()
    ensures Words("the cat sat") == ["the", "cat", "sat"]
  {
    JoinWords(["the", "cat", "sat"]);
    assert Join(["the", "cat", "sat"]) == "the cat sat";
  }

  /** A text of one word. */
  lemma Hello()
    ensures Words("hello") == ["hello"]
  {
    JoinWords(["hello"]);
  }

  /** Two words separated by two spaces: no empty word between them. */
  lemma DoubleSpace()
    ensures Words("a  b") == ["a", "b"]
  {
    SpaceRunsCollapse("a", 2, "b");
    assert "a" + Spaces(2) + "b" == "a  b";
    JoinWords(["a", "b"]);
    assert Join(["a", "b"]) == "a" + " " + "b";
  }
}
