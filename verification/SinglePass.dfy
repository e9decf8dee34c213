/** The single pass replaces every reference on its own. */
module SinglePass {
  import opened Text
  import opened Interpolation
  import opened NestedReferences

  /** Texts in which no marker begins, and references that the pattern matches. */
  ghost predicate Cut(pieces: seq<Piece>) {
    forall p | p in pieces :: if p.Lit? then Settled(p.text) else p.body != [] && '}' !in p.body
  }

  /** A text stays, a reference to a variable becomes its value, and any other reference stays too. */
  function Replaced(p: Piece, variables: Variables): string {
    match p
    case Lit(text) => text
    case Ref(body) => if TrimSpace(body) in variables then variables[TrimSpace(body)] else "${{" + body + "}}"
  }

  function ReplacedAll(pieces: seq<Piece>, variables: Variables): string {
    if pieces == [] then [] else Replaced(pieces[0], variables) + ReplacedAll(pieces[1..], variables)
  }

  lemma TextIsCopied(text: string, rest: string, variables: Variables)
    requires Settled(text)
    ensures Interpolate(text + rest, variables) == text + Interpolate(rest, variables)
  {
    var all := text + rest;
    forall i | 0 <= i < |text|
      ensures !Opens(all[i..])
    {
      assert all[i..] == text[i..] + rest;
      assert !MayOpen(text[i..]);
    }
    InterpolateClear(all, variables, |text|);
    assert all[..|text|] == text && all[|text|..] == rest;
  }

  lemma PieceIsReplaced(p: Piece, rest: string, variables: Variables)
    requires Cut([p])
    ensures Interpolate(Written(p) + rest, variables) == Replaced(p, variables) + Interpolate(rest, variables)
  {
    hide Interpolate, TrimSpace, Settled;
    assert p in [p];
    if p.Lit? {
      TextIsCopied(p.text, rest, variables);
    } else {
      InterpolateReference([], p.body, rest, variables);
      assert [] + (OPEN + p.body + CLOSE) + rest == Written(p) + rest;
      assert [] + Replaced(p, variables) + Interpolate(rest, variables)
        == Replaced(p, variables) + Interpolate(rest, variables);
    }
  }

  lemma CutSplit(pieces: seq<Piece>)
    requires Cut(pieces) && pieces != []
    ensures Cut([pieces[0]]) && Cut(pieces[1..])
  {
    assert pieces[0] in pieces;
    assert forall p | p in pieces[1..] :: p in pieces;
  }

  /**
   Whatever stands before and behind it, each piece of a text is replaced or kept on its own: values are not
   looked at again, and an undefined reference stops nothing.
   */
  lemma {:induction false} PiecesAreReplaced(pieces: seq<Piece>, variables: Variables)
    requires Cut(pieces)
    ensures Interpolate(Render(pieces), variables) == ReplacedAll(pieces, variables)
  {
    hide Interpolate, Replaced, Written, Cut;
    if pieces == [] {
      NothingReplaced(variables);
    } else {
      CutSplit(pieces);
      PiecesAreReplaced(pieces[1..], variables);
      PieceIsReplaced(pieces[0], Render(pieces[1..]), variables);
    }
  }

  lemma NothingReplaced(variables: Variables)
    ensures Interpolate([], variables) == []
  {
  }

  /** So the loop, where it ends with a text, replaces each piece on its own as well, if the values are plain. */
  lemma LoopReplacesPieces(pieces: seq<Piece>, variables: Variables, limit: nat)
    requires Cut(pieces) && Plain(variables) && Openings(Render(pieces)) < limit
    requires forall p | p in pieces && p.Ref? :: TrimSpace(p.body) in variables
    ensures Resolve(Render(pieces), variables, limit) == Resolved(ReplacedAll(pieces, variables))
  {
    hide Interpolate, Resolve, Plain, Cut;
    PiecesAreReplaced(pieces, variables);
    InterpolatorsAgree(Render(pieces), variables, limit);
    AllReplacedIsSettled(pieces, variables);
    NothingLeft(ReplacedAll(pieces, variables));
  }

  lemma {:induction false} AllReplacedIsSettled(pieces: seq<Piece>, variables: Variables)
    requires Cut(pieces) && Plain(variables)
    requires forall p | p in pieces && p.Ref? :: TrimSpace(p.body) in variables
    ensures Settled(ReplacedAll(pieces, variables))
  {
    hide Settled, TrimSpace;
    if pieces == [] {
      WithoutDollar([]);
    } else {
      var p := pieces[0];
      assert p in pieces && forall q | q in pieces[1..] :: q in pieces;
      AllReplacedIsSettled(pieces[1..], variables);
      assert p.Ref? ==> PlainValue(variables[TrimSpace(p.body)]);
      SettledConcat(Replaced(p, variables), ReplacedAll(pieces[1..], variables));
    }
  }

  lemma NothingLeft(text: string)
    requires Settled(text)
    ensures !Contains(text, OPEN)
  {
    forall i | 0 <= i < |text|
      ensures !Opens(text[i..])
    {
      assert !MayOpen(text[i..]);
    }
    NowhereOpen(text);
    IndexNone(text, OPEN);
  }
}
