/**
 * The text of one chat line: the content pieces of the message body, read in
 * document order. A piece with non-empty text gives that text; a piece without
 * text gives the alt text of its emote image if it holds one, and nothing if it
 * holds none. An image without an alt attribute cannot be appended to the body
 * and makes the whole read fail.
 */
module ChatText {
  import opened Wrappers

  /**
   * One child of the message body. `img` is None when the piece holds no
   * chat image, Some(None) when the image has no alt attribute, and
   * Some(Some(alt)) otherwise.
   */
  datatype Piece = Piece(text: string, img: Option<Option<string>>)

  /** One chat-line node of the page: its author attribute and its body pieces. */
  datatype Message = Message(author: string, pieces: seq<Piece>)

  /** What the scraper yields for one node: (author, body). */
  datatype ChatLine = ChatLine(author: string, body: string)

  /** What one piece adds to the body; None when it cannot be added. */
  function Contribution(p: Piece): Option<string>
  {
    if p.text != "" then Some(p.text)
    else match p.img
      case None => Some("")
      case Some(alt) => alt
  }

  /** Concatenation of two partial reads; a failure on either side fails the whole. */
  function Join(a: Option<string>, b: Option<string>): Option<string>
  {
    if a.Some? && b.Some? then Some(a.value + b.value) else None
  }

  /** The body of a message: the contributions of its pieces, in order, with nothing between them. */
  function Body(ps: seq<Piece>): Option<string>
  {
    if ps == [] then Some("") else Join(Contribution(ps[0]), Body(ps[1..]))
  }

  /** Joining is associative. */
  lemma JoinAssoc(a: Option<string>, b: Option<string>, c: Option<string>)
    ensures Join(a, Join(b, c)) == Join(Join(a, b), c)
  {
    if a.Some? && b.Some? && c.Some? {
      assert a.value + (b.value + c.value) == (a.value + b.value) + c.value;
    }
  }

  /** Reading two runs of pieces one after the other gives the two bodies, concatenated. */
  lemma {:induction false} BodyAppend(ps: seq<Piece>, qs: seq<Piece>)
    ensures Body(ps + qs) == Join(Body(ps), Body(qs))
  {
    if ps == [] {
      assert ps + qs == qs;
      if Body(qs).Some? {
        assert "" + Body(qs).value == Body(qs).value;
      }
    } else {
      var rest := ps[1..] + qs;
      assert ps + qs == [ps[0]] + rest;
      assert Body(ps + qs) == Join(Contribution(ps[0]), Body(rest));
      BodyAppend(ps[1..], qs);
      JoinAssoc(Contribution(ps[0]), Body(ps[1..]), Body(qs));
    }
  }

  /** Splits a sequence of pieces around position i. */
  lemma BodyAround(ps: seq<Piece>, i: nat)
    requires i < |ps|
    ensures Body(ps) == Join(Join(Body(ps[..i]), Contribution(ps[i])), Body(ps[i + 1..]))
  {
    var before, at, after := ps[..i], [ps[i]], ps[i + 1..];
    assert ps == before + at + after;
    BodyAppend(before + at, after);
    BodyAppend(before, at);
    BodySingle(ps[i]);
  }

  /** A single piece reads as its contribution. */
  lemma BodySingle(p: Piece)
    ensures Body([p]) == Contribution(p)
  {
    assert [p][1..] == [];
    if Contribution(p).Some? {
      assert Contribution(p).value + "" == Contribution(p).value;
    }
  }

  /** Reading fails exactly when some piece has no text and an image without alt. */
  lemma {:induction false} BodyFailsIff(ps: seq<Piece>)
    ensures Body(ps).None? <==> exists i :: 0 <= i < |ps| && ps[i].text == "" && ps[i].img == Some(None)
  {
    if ps != [] {
      BodyFailsIff(ps[1..]);
      if Body(ps[1..]).None? {
        var i :| 0 <= i < |ps[1..]| && ps[1..][i].text == "" && ps[1..][i].img == Some(None);
        assert ps[i + 1] == ps[1..][i];
      }
      if exists i :: 0 <= i < |ps| && ps[i].text == "" && ps[i].img == Some(None) {
        var i :| 0 <= i < |ps| && ps[i].text == "" && ps[i].img == Some(None);
        if i > 0 {
          assert ps[1..][i - 1] == ps[i];
        }
      }
    }
  }

  /** A piece with non-empty text contributes its text: its image, whatever it is, is never read. */
  lemma BodyIgnoresImageBesideText(ps: seq<Piece>, i: nat, img: Option<Option<string>>)
    requires i < |ps| && ps[i].text != ""
    ensures Body(ps[i := ps[i].(img := img)]) == Body(ps)
  {
    var qs := ps[i := ps[i].(img := img)];
    BodyAround(ps, i);
    BodyAround(qs, i);
    assert qs[..i] == ps[..i] && qs[i + 1..] == ps[i + 1..];
  }

  /** An emote with alt text reads exactly like a plain text piece holding that alt text. */
  lemma BodyEmoteReadsAsAlt(ps: seq<Piece>, i: nat, alt: string)
    requires i < |ps| && ps[i].text == "" && ps[i].img == Some(Some(alt))
    ensures Body(ps[i := Piece(alt, None)]) == Body(ps)
  {
    var qs := ps[i := Piece(alt, None)];
    BodyAround(ps, i);
    BodyAround(qs, i);
    assert qs[..i] == ps[..i] && qs[i + 1..] == ps[i + 1..];
  }

  /** A piece with neither text nor image adds nothing: dropping it leaves the body as it was. */
  lemma BodySkipsBarePiece(ps: seq<Piece>, i: nat)
    requires i < |ps| && ps[i].text == "" && ps[i].img == None
    ensures Body(ps[..i] + ps[i + 1..]) == Body(ps)
  {
    BodyAround(ps, i);
    BodyAppend(ps[..i], ps[i + 1..]);
    var a := Body(ps[..i]);
    if a.Some? {
      assert a.value + "" == a.value;
    }
  }

  /** The concatenated texts of a run of pieces. */
  function Texts(ps: seq<Piece>): string
  {
    if ps == [] then "" else ps[0].text + Texts(ps[1..])
  }

  /** A message made of text pieces only reads as their texts, back to back, whatever images they hold. */
  lemma {:induction false} BodyOfTextPieces(ps: seq<Piece>)
    requires forall i :: 0 <= i < |ps| ==> ps[i].text != ""
    ensures Body(ps) == Some(Texts(ps))
  {
    if ps != [] {
      BodyOfTextPieces(ps[1..]);
    }
  }

  /** twitch_message_to_text: walks the pieces, appending each contribution to the body. */
  method MessageToText(pieces: seq<Piece>) returns (body: Option<string>)
    ensures body == Body(pieces)
  {
    var text := "";
    var i := 0;
    while i < |pieces|
      invariant 0 <= i <= |pieces|
      invariant Body(pieces[..i]) == Some(text)
    {
      var piece := pieces[i];
      BodyAppend(pieces[..i], [piece]);
      assert pieces[..i + 1] == pieces[..i] + [piece];
      assert Body([piece]) == Join(Contribution(piece), Some(""));
      if piece.text != "" {
        assert piece.text + "" == piece.text;
        text := text + piece.text;
      } else if piece.img.Some? {
        if piece.img.value.None? {
          BodyAppend(pieces[..i + 1], pieces[i + 1..]);
          assert pieces == pieces[..i + 1] + pieces[i + 1..];
          return None;
        }
        assert piece.img.value.value + "" == piece.img.value.value;
        text := text + piece.img.value.value;
      } else {
        assert text + "" == text;
      }
      i := i + 1;
    }
    assert pieces[..i] == pieces;
    body := Some(text);
  }

  /**
   * The reference definition behind parse_twitch_message: the node's author
   * with its body, or None when the body cannot be read. `TakeFirst` is the
   * operation on the page, proved against this function.
   */
  function ParseMessage(m: Message): Option<ChatLine>
  {
    match Body(m.pieces)
    case None => None
    case Some(b) => Some(ChatLine(m.author, b))
  }

  /** The lines of a run of nodes, read one by one; None when one of them cannot be read. */
  function ParseAll(ms: seq<Message>): Option<seq<ChatLine>>
  {
    if ms == [] then Some([])
    else
      var init, last := ParseAll(ms[..|ms| - 1]), ParseMessage(ms[|ms| - 1]);
      if init.Some? && last.Some? then Some(init.value + [last.value]) else None
  }

  /** A run of nodes parses exactly when each of them does, into one line per node, in node order. */
  lemma {:induction false} ParseAllAt(ms: seq<Message>)
    ensures ParseAll(ms).Some? <==> forall i :: 0 <= i < |ms| ==> ParseMessage(ms[i]).Some?
    ensures ParseAll(ms).Some? ==> && |ParseAll(ms).value| == |ms|
                                   && forall i :: 0 <= i < |ms| ==> ParseAll(ms).value[i] == ParseMessage(ms[i]).value
  {
    if ms != [] {
      var n := |ms| - 1;
      var init := ms[..n];
      ParseAllAt(init);
      assert forall i :: 0 <= i < n ==> init[i] == ms[i];
      if ParseAll(ms).Some? {
        var ls := ParseAll(ms).value;
        assert ls == ParseAll(init).value + [ParseMessage(ms[n]).value];
        forall i | 0 <= i < |ms|
          ensures ls[i] == ParseMessage(ms[i]).value
        {
          if i < n {
            assert ls[i] == ParseAll(init).value[i];
          }
        }
      }
    }
  }
}
