/** Splitting sequences at separators, and joining pieces again. */
module Splitting {
  import opened Common

  /** The pieces between separators; n separators give n + 1 pieces. */
  function Split<T(==)>(text: seq<T>, separators: set<T>): (pieces: seq<seq<T>>)
    ensures pieces != []
  {
    if text == [] then [[]]
    else if text[0] in separators then [[]] + Split(text[1..], separators)
    else
      var rest := Split(text[1..], separators);
      [[text[0]] + rest[0]] + rest[1..]
  }

  function NonEmpty<T(==)>(pieces: seq<seq<T>>): seq<seq<T>> {
    if pieces == [] then [] else (if pieces[0] == [] then [] else [pieces[0]]) + NonEmpty(pieces[1..])
  }

  function Join<T>(pieces: seq<seq<T>>, separator: T): seq<T> {
    if |pieces| == 0 then []
    else if |pieces| == 1 then pieces[0]
    else pieces[0] + [separator] + Join(pieces[1..], separator)
  }

  predicate Without<T>(piece: seq<T>, separators: set<T>) {
    forall i :: 0 <= i < |piece| ==> piece[i] !in separators
  }

  lemma PrependToFirst<T>(x: T, rest: seq<seq<T>>, tail: seq<seq<T>>)
    requires rest != []
    ensures [[x] + (rest + tail)[0]] + (rest + tail)[1..] == ([[x] + rest[0]] + rest[1..]) + tail
    ensures [[]] + (rest + tail) == ([[]] + rest) + tail
  {
    assert (rest + tail)[1..] == rest[1..] + tail;
  }

  /** The two sides of a separator are split independently. */
  lemma {:induction false} SplitConcat<T>(a: seq<T>, separator: T, b: seq<T>, separators: set<T>)
    requires separator in separators
    ensures Split(a + [separator] + b, separators) == Split(a, separators) + Split(b, separators)
  {
    var whole := a + [separator] + b;
    if a == [] {
      assert whole[1..] == b;
      assert whole[0] == separator;
    } else {
      SplitConcat(a[1..], separator, b, separators);
      assert whole[1..] == a[1..] + [separator] + b;
      assert whole[0] == a[0];
      PrependToFirst(a[0], Split(a[1..], separators), Split(b, separators));
    }
  }

  lemma {:induction false} SplitPiece<T>(piece: seq<T>, separators: set<T>)
    requires Without(piece, separators)
    ensures Split(piece, separators) == [piece]
  {
    if piece != [] {
      SplitPiece(piece[1..], separators);
      assert [piece[0]] + piece[1..] == piece;
    }
  }

  /** A piece that a separator ends comes first. */
  lemma SplitFirst<T>(piece: seq<T>, separator: T, rest: seq<T>, separators: set<T>)
    requires Without(piece, separators) && separator in separators
    ensures Split(piece + [separator] + rest, separators) == [piece] + Split(rest, separators)
  {
    hide Split;
    SplitConcat(piece, separator, rest, separators);
    SplitPiece(piece, separators);
  }

  /** Pieces hold elements of the text, none of them a separator. */
  lemma {:induction false} PieceElements<T>(text: seq<T>, separators: set<T>, k: nat)
    requires k < |Split(text, separators)|
    ensures forall x :: x in Split(text, separators)[k] ==> x in text && x !in separators
  {
    if text != [] {
      var rest := Split(text[1..], separators);
      assert forall x :: x in text[1..] ==> x in text;
      if text[0] in separators {
        if k > 0 { PieceElements(text[1..], separators, k - 1); }
      } else {
        PieceElements(text[1..], separators, k);
        if k == 0 {
          assert forall x :: x in [text[0]] + rest[0] ==> x == text[0] || x in rest[0];
        }
      }
    }
  }

  /** Every element that is no separator is in a piece. */
  lemma {:induction false} PieceOf<T>(text: seq<T>, separators: set<T>, i: nat) returns (k: nat)
    requires i < |text|
    ensures text[i] !in separators ==> k < |Split(text, separators)| && text[i] in Split(text, separators)[k]
  {
    var rest := Split(text[1..], separators);
    k := 0;
    if i > 0 { k := PieceOf(text[1..], separators, i - 1); }
    if text[0] in separators {
      k := k + 1;
    } else {
      InFirstOrLater(text[0], rest, k);
    }
  }

  /** Elements stay in their pieces when the first piece grows. */
  lemma InFirstOrLater<T>(first: T, rest: seq<seq<T>>, k: nat)
    requires rest != []
    ensures first in ([[first] + rest[0]] + rest[1..])[0]
    ensures k < |rest| ==> forall x :: x in rest[k] ==> x in ([[first] + rest[0]] + rest[1..])[k]
  {
    var head := [first] + rest[0];
    assert head[0] == first && head[1..] == rest[0];
    assert forall x :: x in rest[0] ==> x in head[1..];
    assert k < |rest| && k > 0 ==> ([head] + rest[1..])[k] == rest[k];
  }

  lemma {:induction false} NonEmptyOfConcat<T>(a: seq<seq<T>>, b: seq<seq<T>>)
    ensures NonEmpty(a + b) == NonEmpty(a) + NonEmpty(b)
  {
    if a == [] {
      assert a + b == b;
    } else {
      NonEmptyOfConcat(a[1..], b);
      assert (a + b)[1..] == a[1..] + b && (a + b)[0] == a[0];
      Associative(if a[0] == [] then [] else [a[0]], NonEmpty(a[1..]), NonEmpty(b));
    }
  }

  lemma {:induction false} NonEmptyIn<T>(pieces: seq<seq<T>>, i: nat) returns (k: nat)
    requires i < |NonEmpty(pieces)|
    ensures k < |pieces| && pieces[k] == NonEmpty(pieces)[i] && pieces[k] != []
  {
    var n := if pieces[0] == [] then 0 else 1;
    if i < n {
      k := 0;
    } else {
      k := NonEmptyIn(pieces[1..], i - n);
      k := k + 1;
    }
  }

  lemma {:induction false} NonEmptyPieces<T>(pieces: seq<seq<T>>)
    requires forall i :: 0 <= i < |pieces| ==> pieces[i] != []
    ensures NonEmpty(pieces) == pieces
  {
    if pieces != [] {
      NonEmptyPieces(pieces[1..]);
      assert pieces == [pieces[0]] + pieces[1..];
    }
  }

  /** Splitting undoes joining pieces without separators. */
  lemma {:induction false} SplitJoin<T>(pieces: seq<seq<T>>, separator: T, separators: set<T>)
    requires separator in separators && pieces != []
    requires forall i :: 0 <= i < |pieces| ==> Without(pieces[i], separators)
    ensures Split(Join(pieces, separator), separators) == pieces
  {
    hide Split, Without;
    if |pieces| == 1 {
      SplitPiece(pieces[0], separators);
      assert pieces == [pieces[0]];
    } else {
      SplitJoin(pieces[1..], separator, separators);
      SplitFirst(pieces[0], separator, Join(pieces[1..], separator), separators);
    }
  }

  /** Joining undoes splitting at one separator. */
  lemma {:induction false} JoinSplit<T>(text: seq<T>, separator: T)
    ensures Join(Split(text, {separator}), separator) == text
  {
    if text != [] {
      JoinSplit(text[1..], separator);
      var rest := Split(text[1..], {separator});
      if text[0] == separator {
        JoinCons([], rest, separator);
        assert [] + [separator] + text[1..] == text;
      } else {
        JoinGrows(text[0], rest, separator);
        assert [text[0]] + text[1..] == text;
      }
    }
  }

  lemma JoinCons<T>(piece: seq<T>, rest: seq<seq<T>>, separator: T)
    requires rest != []
    ensures Join([piece] + rest, separator) == piece + [separator] + Join(rest, separator)
  {
    assert ([piece] + rest)[1..] == rest;
  }

  lemma JoinGrows<T>(first: T, rest: seq<seq<T>>, separator: T)
    requires rest != []
    ensures Join([[first] + rest[0]] + rest[1..], separator) == [first] + Join(rest, separator)
  {
    var head, more := [first] + rest[0], rest[1..];
    assert rest == [rest[0]] + more;
    if more == [] {
      assert [head] + more == [head];
    } else {
      JoinCons(head, more, separator);
      JoinCons(rest[0], more, separator);
      hide Join;
      Associative([first], rest[0], [separator]);
      Associative([first], rest[0] + [separator], Join(more, separator));
    }
  }
}
