/**
 * The keyword box: the comma-separated text both flows split into keywords.
 * Pieces are kept verbatim: no trimming, no dropping of empty pieces, no
 * removal of duplicates.
 */
module Keywords {

  const SEPARATOR: char := ','

  /**
   * Python's `text.split(",")`, defined from the last character backwards so
   * that it follows a left-to-right scan.
   */
  function Split(text: string): (pieces: seq<string>)
    ensures |pieces| >= 1
  {
    if |text| == 0 then [""]
    else
      var init := Split(text[..|text| - 1]);
      var c := text[|text| - 1];
      if c == SEPARATOR then init + [""]
      else init[..|init| - 1] + [init[|init| - 1] + [c]]
  }

  /** `sep.join(words)`. */
  function JoinWords(words: seq<string>, sep: string): (r: string)
    ensures |words| == 0 ==> r == ""
    ensures |words| == 1 ==> r == words[0]
  {
    if |words| == 0 then ""
    else if |words| == 1 then words[0]
    else JoinWords(words[..|words| - 1], sep) + sep + words[|words| - 1]
  }

  /** `",".join(pieces)`. */
  function Join(pieces: seq<string>): string
    requires |pieces| >= 1
  {
    JoinWords(pieces, [SEPARATOR])
  }

  /** Number of occurrences of `c` in `s`. */
  function Occurrences(s: string, c: char): nat
  {
    if |s| == 0 then 0
    else Occurrences(s[..|s| - 1], c) + (if s[|s| - 1] == c then 1 else 0)
  }

  /** Splitting gives one more piece than there are commas. */
  lemma {:induction false} SplitCount(text: string)
    ensures |Split(text)| == Occurrences(text, SEPARATOR) + 1
  {
    if |text| > 0 {
      SplitCount(text[..|text| - 1]);
    }
  }

  /** No piece contains a comma. */
  lemma {:induction false} SplitPiecesHaveNoSeparator(text: string)
    ensures forall i :: 0 <= i < |Split(text)| ==> SEPARATOR !in Split(text)[i]
  {
    if |text| > 0 {
      SplitPiecesHaveNoSeparator(text[..|text| - 1]);
    }
  }

  lemma JoinSnoc(init: seq<string>, last: string)
    requires |init| >= 1
    ensures Join(init + [last]) == Join(init) + [SEPARATOR] + last
  {
    assert (init + [last])[..|init|] == init;
  }

  /** Joining the pieces with "," gives back the text: nothing is lost or altered. */
  lemma {:induction false} JoinSplit(text: string)
    ensures Join(Split(text)) == text
  {
    if |text| > 0 {
      var t := text[..|text| - 1];
      var c := text[|text| - 1];
      assert text == t + [c];
      JoinSplit(t);
      var init := Split(t);
      if c == SEPARATOR {
        JoinSnoc(init, "");
      } else if |init| == 1 {
        assert Split(text) == [init[0] + [c]];
      } else {
        var front := init[..|init| - 1];
        assert init == front + [init[|init| - 1]];
        JoinSnoc(front, init[|init| - 1] + [c]);
        JoinSnoc(front, init[|init| - 1]);
      }
    }
  }

  /** A text without commas is one piece. */
  lemma {:induction false} SplitNoSeparator(text: string)
    requires SEPARATOR !in text
    ensures Split(text) == [text]
  {
    if |text| > 0 {
      SplitNoSeparator(text[..|text| - 1]);
      assert text == text[..|text| - 1] + [text[|text| - 1]];
    }
  }

  /** Appending a comma and a comma-free tail adds exactly that tail as the last piece. */
  lemma {:induction false} SplitAppendPiece(head: string, tail: string)
    requires SEPARATOR !in tail
    ensures Split(head + [SEPARATOR] + tail) == Split(head) + [tail]
  {
    var s := head + [SEPARATOR] + tail;
    if |tail| == 0 {
      assert s[..|s| - 1] == head;
    } else {
      var t := tail[..|tail| - 1];
      assert s[..|s| - 1] == head + [SEPARATOR] + t;
      SplitAppendPiece(head, t);
      assert tail == t + [tail[|tail| - 1]];
    }
  }

  /** Splitting is the inverse of joining comma-free pieces. */
  lemma {:induction false} SplitJoin(pieces: seq<string>)
    requires |pieces| >= 1
    requires forall i :: 0 <= i < |pieces| ==> SEPARATOR !in pieces[i]
    ensures Split(Join(pieces)) == pieces
  {
    if |pieces| == 1 {
      SplitNoSeparator(pieces[0]);
    } else {
      var init := pieces[..|pieces| - 1];
      SplitJoin(init);
      assert Join(pieces) == Join(init) + [SEPARATOR] + pieces[|pieces| - 1];
      SplitAppendPiece(Join(init), pieces[|pieces| - 1]);
      assert pieces == init + [pieces[|pieces| - 1]];
    }
  }

  /**
   * The loop that appends every piece of `text.split(",")` to `keywords`,
   * with the split done by the same scan.
   */
  method ParseKeywords(text: string) returns (keywords: seq<string>)
    ensures keywords == Split(text)
    ensures |keywords| == Occurrences(text, SEPARATOR) + 1
    ensures Join(keywords) == text
    ensures forall i :: 0 <= i < |keywords| ==> SEPARATOR !in keywords[i]
  {
    keywords := [];
    var current := "";
    var i := 0;
    while i < |text|
      invariant 0 <= i <= |text|
      invariant keywords + [current] == Split(text[..i])
    {
      assert text[..i + 1][..i] == text[..i];
      if text[i] == SEPARATOR {
        keywords := keywords + [current];
        current := "";
      } else {
        current := current + [text[i]];
      }
      i := i + 1;
    }
    keywords := keywords + [current];
    assert text[..|text|] == text;
    SplitCount(text);
    JoinSplit(text);
    SplitPiecesHaveNoSeparator(text);
  }
}
