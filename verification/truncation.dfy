/**
 * Context assembly (`truncate_documents`): walks the extracted texts in
 * order with a running budget, keeps a character prefix of each text no
 * longer than the budget, charges the budget the UTF-8 byte length of that
 * prefix, stops once the budget is at or below zero, and joins the kept
 * prefixes with newlines. The separators are not charged.
 */
module Truncation {
  import opened Strings
  import opened Utf8

  /** The default and the call site's budget. */
  const DefaultMaxTotalLength: int := 4000

  /** The pieces the loop keeps, given the texts still to visit and the remaining budget. */
  function Pieces(texts: seq<string>, remaining: int): (ps: seq<string>)
    ensures |ps| <= |texts|
    ensures remaining <= 0 ==> ps == []
    decreases |texts|
  {
    if texts == [] || remaining <= 0 then []
    else
      var piece := Prefix(texts[0], remaining);
      [piece] + Pieces(texts[1..], remaining - Utf8Len(piece))
  }

  /** The bytes charged for the pieces, summed. */
  function Charged(ps: seq<string>): nat
  {
    if ps == [] then 0 else Utf8Len(ps[0]) + Charged(ps[1..])
  }

  /**
   * A non-recursive description of what the loop keeps: at most one piece
   * per text; piece k is taken while the budget left after the first k
   * pieces is positive and is the prefix of text k of that length; and when
   * a text is left unvisited the budget is spent.
   */
  ghost predicate IsTruncation(texts: seq<string>, maxTotal: int, ps: seq<string>)
  {
    |ps| <= |texts|
    && (forall k {:trigger Charged(ps[..k])} :: 0 <= k < |ps| ==>
          Charged(ps[..k]) < maxTotal && ps[k] == Prefix(texts[k], maxTotal - Charged(ps[..k])))
    && (|ps| < |texts| ==> Charged(ps) >= maxTotal)
  }

  /** The charge for a nonempty front of the pieces splits off the first piece. */
  lemma ChargedFront(ps: seq<string>, k: nat)
    requires 0 < k <= |ps|
    ensures Charged(ps[..k]) == Utf8Len(ps[0]) + Charged(ps[1..][..k - 1])
  {
    assert ps[..k][1..] == ps[1..][..k - 1];
  }

  /** What the description says of the first piece, and that the rest meets it for the remaining texts. */
  lemma TruncationTail(texts: seq<string>, maxTotal: int, ps: seq<string>)
    requires IsTruncation(texts, maxTotal, ps) && ps != []
    ensures texts != [] && maxTotal > 0 && ps[0] == Prefix(texts[0], maxTotal)
    ensures IsTruncation(texts[1..], maxTotal - Utf8Len(ps[0]), ps[1..])
  {
    assert ps[..0] == [];
    var left := maxTotal - Utf8Len(ps[0]);
    var rest := ps[1..];
    forall k | 0 <= k < |rest|
      ensures Charged(rest[..k]) < left && rest[k] == Prefix(texts[1..][k], left - Charged(rest[..k]))
    {
      ChargedFront(ps, k + 1);
      assert rest[k] == ps[k + 1];
    }
    assert Charged(ps) == Utf8Len(ps[0]) + Charged(rest);
  }

  /** A first piece cut to the whole budget, followed by a truncation of the other texts with what is left. */
  lemma TruncationCons(t: string, rest: seq<string>, maxTotal: int, ps: seq<string>)
    requires maxTotal > 0
    requires IsTruncation(rest, maxTotal - Utf8Len(Prefix(t, maxTotal)), ps)
    ensures IsTruncation([t] + rest, maxTotal, [Prefix(t, maxTotal)] + ps)
  {
    var p := Prefix(t, maxTotal);
    var texts := [t] + rest;
    var all := [p] + ps;
    var left := maxTotal - Utf8Len(p);
    forall k | 0 <= k < |all|
      ensures Charged(all[..k]) < maxTotal && all[k] == Prefix(texts[k], maxTotal - Charged(all[..k]))
    {
      if k > 0 {
        ChargedFront(all, k);
        assert all[1..] == ps && texts[k] == rest[k - 1];
        assert Charged(ps[..k - 1]) < left;
      } else {
        assert all[..0] == [];
      }
    }
    assert all[1..] == ps;
  }

  lemma TruncationNil(texts: seq<string>, maxTotal: int)
    requires texts == [] || maxTotal <= 0
    ensures IsTruncation(texts, maxTotal, [])
  {
    assert Charged([]) == 0;
  }

  lemma {:induction false} PiecesIsTruncation(texts: seq<string>, maxTotal: int)
    ensures IsTruncation(texts, maxTotal, Pieces(texts, maxTotal))
    decreases |texts|
  {
    if texts == [] || maxTotal <= 0 {
      TruncationNil(texts, maxTotal);
    } else {
      var p := Prefix(texts[0], maxTotal);
      var rest := Pieces(texts[1..], maxTotal - Utf8Len(p));
      PiecesIsTruncation(texts[1..], maxTotal - Utf8Len(p));
      TruncationCons(texts[0], texts[1..], maxTotal, rest);
      assert [texts[0]] + texts[1..] == texts;
    }
  }

  lemma {:induction false} TruncationIsPieces(texts: seq<string>, maxTotal: int, ps: seq<string>)
    requires IsTruncation(texts, maxTotal, ps)
    ensures ps == Pieces(texts, maxTotal)
    decreases |texts|
  {
    if ps == [] {
      assert |ps| < |texts| ==> Charged(ps) >= maxTotal;
    } else {
      TruncationTail(texts, maxTotal, ps);
      var left := maxTotal - Utf8Len(ps[0]);
      TruncationIsPieces(texts[1..], left, ps[1..]);
      assert Pieces(texts, maxTotal) == [ps[0]] + Pieces(texts[1..], left);
      assert ps == [ps[0]] + ps[1..];
    }
  }

  /** `IsTruncation` singles out exactly the pieces the loop keeps. */
  lemma TruncationUnique(texts: seq<string>, maxTotal: int, ps: seq<string>)
    ensures IsTruncation(texts, maxTotal, ps) <==> ps == Pieces(texts, maxTotal)
  {
    PiecesIsTruncation(texts, maxTotal);
    if IsTruncation(texts, maxTotal, ps) {
      TruncationIsPieces(texts, maxTotal, ps);
    }
  }

  /** Piece k is a prefix of text k, so the pieces keep the order of the texts. */
  lemma PiecesArePrefixes(texts: seq<string>, maxTotal: int)
    ensures forall k :: 0 <= k < |Pieces(texts, maxTotal)| ==> Pieces(texts, maxTotal)[k] <= texts[k]
  {
    PiecesIsTruncation(texts, maxTotal);
  }

  /** Only the last piece can be cut short; every earlier text is kept whole. */
  lemma {:induction false} OnlyLastTruncated(texts: seq<string>, maxTotal: int)
    ensures forall k :: 0 <= k < |Pieces(texts, maxTotal)| - 1 ==> Pieces(texts, maxTotal)[k] == texts[k]
    decreases |texts|
  {
    var ps := Pieces(texts, maxTotal);
    if |ps| > 1 {
      var p := ps[0];
      var left := maxTotal - Utf8Len(p);
      OnlyLastTruncated(texts[1..], left);
      assert ps[1..] == Pieces(texts[1..], left);
      Utf8LenBounds(p);
      assert p == texts[0];
    }
  }

  /**
   * The kept characters never exceed the budget: each piece is at most the
   * budget left, and the budget drops by at least the piece's length.
   */
  lemma {:induction false} KeptCharactersWithinBudget(texts: seq<string>, maxTotal: int)
    requires maxTotal >= 0
    ensures TotalLength(Pieces(texts, maxTotal)) <= maxTotal
    decreases |texts|
  {
    var ps := Pieces(texts, maxTotal);
    if ps != [] {
      var p := ps[0];
      var left := maxTotal - Utf8Len(p);
      assert ps[1..] == Pieces(texts[1..], left);
      Utf8LenBounds(p);
      if left >= 0 {
        KeptCharactersWithinBudget(texts[1..], left);
      }
    }
  }

  /**
   * Once the budget charged for the first k + 1 pieces reaches the maximum,
   * no further piece is kept: every later text is dropped entirely.
   */
  lemma {:induction false} DroppedOnceSpent(texts: seq<string>, maxTotal: int, k: nat)
    requires k < |Pieces(texts, maxTotal)|
    requires Charged(Pieces(texts, maxTotal)[..k + 1]) >= maxTotal
    ensures |Pieces(texts, maxTotal)| == k + 1
    decreases |texts|
  {
    var ps := Pieces(texts, maxTotal);
    var p := ps[0];
    var left := maxTotal - Utf8Len(p);
    assert ps[1..] == Pieces(texts[1..], left);
    assert Charged(ps[..k + 1]) == Utf8Len(p) + Charged(ps[..k + 1][1..]);
    if k > 0 {
      assert ps[..k + 1][1..] == ps[1..][..k];
      DroppedOnceSpent(texts[1..], left, k - 1);
    }
  }

  /**
   * The newline separators are not charged: the joined text exceeds the kept
   * characters by exactly one character per separator.
   */
  lemma JoinedLength(texts: seq<string>, maxTotal: int)
    requires Pieces(texts, maxTotal) != []
    ensures |Join(Pieces(texts, maxTotal), "\n")| == TotalLength(Pieces(texts, maxTotal)) + |Pieces(texts, maxTotal)| - 1
    ensures |Join(Pieces(texts, maxTotal), "\n")| <= maxTotal + |texts| - 1
  {
    JoinLength(Pieces(texts, maxTotal), "\n");
    KeptCharactersWithinBudget(texts, maxTotal);
  }

  /** `truncate_documents(doc_texts, max_total_length)`. */
  method TruncateDocuments(docTexts: seq<string>, maxTotalLength: int) returns (joined: string)
    ensures joined == Join(Pieces(docTexts, maxTotalLength), "\n")
  {
    var truncatedTexts: seq<string> := [];
    var remainingLength := maxTotalLength;
    var i := 0;
    while i < |docTexts|
      invariant 0 <= i <= |docTexts|
      invariant truncatedTexts + Pieces(docTexts[i..], remainingLength) == Pieces(docTexts, maxTotalLength)
    {
      if remainingLength <= 0 {
        break;
      }
      var truncatedText := Prefix(docTexts[i], remainingLength);
      truncatedTexts := truncatedTexts + [truncatedText];
      EncodeLength(truncatedText);
      remainingLength := remainingLength - |Encode(truncatedText)|;
      assert docTexts[i..][1..] == docTexts[i + 1..];
      i := i + 1;
    }
    assert Pieces(docTexts[i..], remainingLength) == [];
    assert truncatedTexts + [] == truncatedTexts;
    joined := Join(truncatedTexts, "\n");
  }

  lemma NoTextsGiveEmpty(maxTotal: int)
    ensures Join(Pieces([], maxTotal), "\n") == ""
  {
  }

  lemma NoBudgetGivesEmpty(texts: seq<string>, maxTotal: int)
    requires maxTotal <= 0
    ensures Join(Pieces(texts, maxTotal), "\n") == ""
  {
  }

  /** The first text is cut to the budget of 3 and spends it, so the second is dropped. */
  lemma ExampleHelloWorld()
    ensures Join(Pieces(["Hello", "World"], 3), "\n") == "Hel"
  {
    assert Prefix("Hello", 3) == "Hel";
    assert Utf8Len("Hel") == 3;
  }

  lemma ExampleBothKept()
    ensures Join(Pieces(["ab", "cd"], 10), "\n") == "ab\ncd"
  {
    assert Prefix("ab", 10) == "ab" && Utf8Len("ab") == 2;
    assert Prefix("cd", 8) == "cd" && Utf8Len("cd") == 2;
    assert ["ab", "cd"][1..] == ["cd"];
  }

  /** With a budget of 4 the separator makes the result one character longer than the budget. */
  lemma ExampleSeparatorUncharged()
    ensures Join(Pieces(["ab", "cd"], 4), "\n") == "ab\ncd"
    ensures |Join(Pieces(["ab", "cd"], 4), "\n")| == 5
  {
    assert Prefix("ab", 4) == "ab" && Utf8Len("ab") == 2;
    assert Prefix("cd", 2) == "cd" && Utf8Len("cd") == 2;
    assert ["ab", "cd"][1..] == ["cd"];
  }

  /**
   * Two euro signs fit a budget of 2 characters but cost 6 bytes, so the
   * budget goes negative and the next text is dropped.
   */
  lemma ExampleMultiByte()
    ensures Join(Pieces(["\U{20AC}\U{20AC}", "x"], 2), "\n") == "\U{20AC}\U{20AC}"
    ensures Utf8Len("\U{20AC}\U{20AC}") == 6
  {
    assert Prefix("\U{20AC}\U{20AC}", 2) == "\U{20AC}\U{20AC}";
    assert Utf8Len("\U{20AC}\U{20AC}") == 6;
  }
}
