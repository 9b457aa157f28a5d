/** The word crawler: a cursor over a private copy of a text that moves a
    word at a time, and the four routines that walk a text with it.

    The character pointers of the C++ class become offsets into the text:
    the start of the buffer is offset 0, its last character is `ending`,
    and the cursor is `pos`.  The ghost field `index` is the number of the
    word the cursor is on, so that every step can be stated in words.
 */
module WordCrawler {
  import opened Text

  class Wordcrawler {
    const text: string
    const ending: nat
    var pos: nat
    ghost var index: nat

    /** The cursor stands on the first character of word `index` of a
        well-formed text (there are as many words as word starts). */
    ghost predicate Valid()
      reads this
    {
      WellFormed(text) && ending == |text| - 1 &&
      |Words(text)| == |Starts(text)| &&
      index < |Starts(text)| && pos == Starts(text)[index] &&
      IsWordStart(text, pos)
    }

    /** Copies s and puts the cursor on its first character. */
    constructor (s: string)
      requires |s| > 0
      ensures text == s && ending == |s| - 1 && pos == 0
      ensures WellFormed(s) ==> Valid() && index == 0 && IsFirstWord()
    {
      text := s;
      ending := |s| - 1;
      pos := 0;
      index := 0;
      if WellFormed(s) {
        FirstStart(s);
        WordsAtStarts(s);
        assert IsWordStart(s, 0);
      }
    }

    /** Prefix ++: moves to the first character of the next word, skipping
        the whole run of spaces in between. */
    method Increment()
      requires Valid() && index + 1 < |Words(text)|
      modifies this
      ensures Valid() && index == old(index) + 1
      ensures old(pos) < pos && text[pos] != ' ' && text[pos - 1] == ' '
      ensures forall j :: WordEnd(text, old(pos)) <= j < pos ==> text[j] == ' '
    {
      ghost var e := WordEnd(text, pos);
      WordEndBeforeNext(text, index);

      // to the space that ends the current word
      var p := pos;
      while text[p] != ' '
        invariant pos <= p <= e
        decreases e - p
      {
        if p != ending {
          p := p + 1;
        }
      }

      // over the rest of the run of spaces
      while text[p + 1] == ' '
        invariant e <= p < ending
        invariant forall j :: e <= j <= p ==> text[j] == ' '
        decreases ending - p
      {
        if p != ending {
          p := p + 1;
        }
      }

      // onto the first character of the next word
      p := p + 1;
      forall q | pos < q < p
        ensures !IsWordStart(text, q)
      {
        if q <= e {
          assert text[q - 1] != ' ';
        } else {
          assert text[q] == ' ';
        }
      }
      NextStart(text, index, p);
      pos, index := p, index + 1;
    }

    /** Prefix --: moves to the first character of the previous word. */
    method Decrement()
      requires Valid() && pos > 0
      modifies this
      ensures Valid() && index == old(index) - 1
      ensures pos < old(pos) && text[pos] != ' ' && (pos == 0 || text[pos - 1] == ' ')
    {
      FirstStart(text);

      // back to the space that directly follows the previous word
      var i := pos - 1;
      while i != 0
        invariant 0 <= i < pos
        invariant forall j :: i <= j < pos ==> text[j] == ' '
        decreases i
      {
        if text[i] == ' ' && text[i - 1] != ' ' {
          break;
        }
        i := i - 1;
      }

      // back over that word to its first character
      var p := i;
      while p != 0 && text[p - 1] != ' '
        invariant 0 <= p <= i
        invariant forall j :: p <= j < i ==> text[j] != ' '
        decreases p
      {
        p := p - 1;
      }

      forall q | p < q < pos
        ensures !IsWordStart(text, q)
      {
        if q <= i {
          assert text[q - 1] != ' ';
        } else {
          assert text[q] == ' ';
        }
      }
      PrevStart(text, index, p);
      pos, index := p, index - 1;
    }

    /** +=: n steps forward. */
    method AdvanceBy(n: nat)
      requires Valid() && index + n < |Words(text)|
      modifies this
      ensures Valid() && index == old(index) + n
    {
      for i := 0 to n
        invariant Valid() && index == old(index) + i
      {
        Increment();
      }
    }

    /** -=: n steps back. */
    method RetreatBy(n: nat)
      requires Valid() && n <= index
      modifies this
      ensures Valid() && index == old(index) - n
    {
      FirstStart(text);
      for i := 0 to n
        invariant Valid() && index == old(index) - i
      {
        assert pos > 0;
        Decrement();
      }
    }

    /** Dereference: the word under the cursor; the cursor does not move. */
    method Current() returns (w: string)
      requires Valid()
      ensures w == Words(text)[index]
      ensures w == text[pos..WordEnd(text, pos)] && IsWord(w)
    {
      WordsAtStarts(text);

      // the offset of the cursor, counted from the start of the text
      var start := 0;
      while start != pos
        invariant start <= pos
        decreases pos - start
      {
        start := start + 1;
      }

      // the length of the word: up to the next space, or through `ending`
      var count := 0;
      var i := pos;
      while text[i] != ' ' && i != ending
        invariant pos <= i <= WordEnd(text, pos) && i <= ending
        invariant count == i - pos
        decreases ending - i
      {
        count := count + 1;
        i := i + 1;
      }
      if i == ending {
        count := count + 1;
      }
      w := text[start..start + count];
      assert ' ' !in w by {
        forall j | 0 <= j < |w|
          ensures w[j] != ' '
        {
          assert w[j] == text[pos + j];
        }
      }
    }

    /** Subscript: moves the cursor to word n and returns that word; the
        cursor stays there. */
    method WordAt(n: nat) returns (w: string)
      requires Valid() && n < |Words(text)|
      modifies this
      ensures Valid() && index == n && w == Words(text)[n]
    {
      FirstStart(text);
      pos, index := 0, 0;
      AdvanceBy(n);
      w := Current();
    }

    /** The cursor is on the first word. */
    function IsFirstWord(): (b: bool)
      reads this
      requires Valid()
      ensures b <==> index == 0
    {
      FirstStart(text);
      pos == 0
    }

    /** The cursor is on the last word: it stands where a scan back from
        `ending` to the first character after a space stops. */
    method IsLastWord() returns (b: bool)
      requires Valid()
      ensures b <==> index == |Words(text)| - 1
    {
      WordsAtStarts(text);
      StartsFromSorted(text, 0);
      var last := ending;
      while last != 0 && text[last - 1] != ' '
        invariant 0 <= last <= ending
        invariant forall j :: last <= j <= ending ==> text[j] != ' '
        decreases last
      {
        last := last - 1;
      }
      LastStart(text, last);
      b := pos == last;
    }
  }

  /** The number of words of s. */
  method WordCount(s: string) returns (count: nat)
    requires WellFormed(s)
    ensures count == |Words(s)|
  {
    count := 1;
    var counter := new Wordcrawler(s);
    var last := counter.IsLastWord();
    while !last
      invariant counter.Valid() && counter.text == s
      invariant count == counter.index + 1
      invariant last <==> counter.index == |Words(s)| - 1
      decreases |Words(s)| - counter.index
    {
      count := count + 1;
      counter.Increment();
      last := counter.IsLastWord();
    }
  }

  /** The number of words of s that are exactly "the". */
  method TheCount(s: string) returns (count: nat)
    requires WellFormed(s)
    ensures count == multiset(Words(s))["the"]
  {
    ghost var ws := Words(s);
    count := 0;
    var counter := new Wordcrawler(s);
    var last := counter.IsLastWord();
    while !last
      invariant counter.Valid() && counter.text == s
      invariant count == multiset(ws[..counter.index])["the"]
      invariant last <==> counter.index == |ws| - 1
      decreases |ws| - counter.index
    {
      var w := counter.Current();
      CountPrefix(ws, counter.index, "the");
      if w == "the" {
        count := count + 1;
      }
      counter.Increment();
      last := counter.IsLastWord();
    }
    var w := counter.Current();
    CountPrefix(ws, counter.index, "the");
    assert ws[..counter.index + 1] == ws;
    if w == "the" {
      count := count + 1;
    }
  }

  /** The words of s at even positions 0, 2, 4, ..., in order. */
  method EveryOtherIn(s: string) returns (out: seq<string>)
    requires WellFormed(s)
    ensures |out| == (|Words(s)| + 1) / 2
    ensures forall i :: 0 <= i < |out| ==> out[i] == Words(s)[2 * i]
  {
    ghost var ws := Words(s);
    out := [];
    var crawler := new Wordcrawler(s);
    var indexPosition := 0;
    var last := crawler.IsLastWord();
    while !last
      invariant crawler.Valid() && crawler.text == s
      invariant indexPosition == crawler.index
      invariant 2 * |out| == indexPosition + indexPosition % 2
      invariant forall i :: 0 <= i < |out| ==> out[i] == ws[2 * i]
      invariant last <==> crawler.index == |ws| - 1
      decreases |ws| - crawler.index
    {
      if indexPosition % 2 == 0 {
        var w := crawler.Current();
        out := out + [w];
      }
      crawler.Increment();
      indexPosition := indexPosition + 1;
      last := crawler.IsLastWord();
    }
    if indexPosition % 2 == 0 {
      var w := crawler.Current();
      out := out + [w];
    }
  }

  /** The words of s from the last to the first. */
  method PrintInReverse(s: string) returns (out: seq<string>)
    requires WellFormed(s)
    ensures |out| == |Words(s)|
    ensures forall i :: 0 <= i < |out| ==> out[i] == Words(s)[|out| - 1 - i]
  {
    ghost var ws := Words(s);
    var crawler := new Wordcrawler(s);

    // forward to the last word
    var last := crawler.IsLastWord();
    while !last
      invariant crawler.Valid() && crawler.text == s
      invariant last <==> crawler.index == |ws| - 1
      decreases |ws| - crawler.index
    {
      crawler.Increment();
      last := crawler.IsLastWord();
    }

    // back to the first word, collecting each word on the way
    out := [];
    while !crawler.IsFirstWord()
      invariant crawler.Valid() && crawler.text == s
      invariant |out| == |ws| - 1 - crawler.index
      invariant forall i :: 0 <= i < |out| ==> out[i] == ws[|ws| - 1 - i]
      decreases crawler.index
    {
      var w := crawler.Current();
      out := out + [w];
      crawler.Decrement();
    }
    var w := crawler.Current();
    out := out + [w];
  }

  /** What a caller of the four routines can conclude from their contracts
      alone, on a text with three words. */
  method ThreeWordsExample()
  {
    ThreeWords();
    var n := WordCount("the cat sat");
    assert n == 3;
    var the := TheCount("the cat sat");
    assert multiset(["the", "cat", "sat"])["the"] == 1;
    assert the == 1;
    var even := EveryOtherIn("the cat sat");
    assert even == ["the", "sat"];
    var rev := PrintInReverse("the cat sat");
    assert rev == ["sat", "cat", "the"];
  }

  /** A text of one word: the cursor is on the first and the last word at
      once, and the routines see that one word. */
  method OneWordExample()
  {
    Hello();
    var crawler := new Wordcrawler("hello");
    assert crawler.IsFirstWord();
    var last := crawler.IsLastWord();
    assert last;
    var n := WordCount("hello");
    assert n == 1;
    var the := TheCount("hello");
    assert the == 0;
    var even := EveryOtherIn("hello");
    assert even == ["hello"];
    var rev := PrintInReverse("hello");
    assert rev == ["hello"];
  }

  /** Every word is "the": each one is counted, the last one included. */
  method TheTheTheExample()
  {
    JoinWords(["the", "the", "the"]);
    assert Join(["the", "the", "the"]) == "the the the";
    var the := TheCount("the the the");
    assert multiset(["the", "the", "the"])["the"] == 3;
    assert the == 3;
  }

  /** A double space separates two words like a single one: the cursor steps
      over it and back, and subscripting finds the second word. */
  method DoubleSpaceExample()
  {
    DoubleSpace();

    var crawler := new Wordcrawler("a  b");
    crawler.Increment();
    assert crawler.pos == 3;
    crawler.Decrement();
    assert crawler.IsFirstWord();
    var w := crawler.WordAt(1);
    assert w == "b";
  }
}
