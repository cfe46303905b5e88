/**
 * The document builder: `create_docx` in app.py, which adds three
 * paragraphs per comment to a new word-processing document. The model keeps
 * the document's paragraph texts; encoding them into `.docx` bytes is not
 * modelled.
 */
module Document {
  import opened Wrappers
  import opened Comments

  /** The separator paragraph `"-" * 40`. */
  const Separator: string := "----------------------------------------"

  /** The decimal digit for `d`. */
  function Digit(d: nat): char
    requires d < 10
  {
    "0123456789"[d]
  }

  /** Python's `str(n)` for a non-negative integer: its decimal digits, no leading zero. */
  function DecimalDigits(n: nat): (s: string)
    ensures |s| > 0 && (s[0] != '0' || s == "0")
    ensures forall k :: 0 <= k < |s| ==> '0' <= s[k] <= '9'
    decreases n
  {
    if n < 10 then [Digit(n)] else DecimalDigits(n / 10) + [Digit(n % 10)]
  }

  /** The value of a string of decimal digits. */
  function DecimalValue(s: string): nat
    requires forall k :: 0 <= k < |s| ==> '0' <= s[k] <= '9'
  {
    if s == [] then 0 else 10 * DecimalValue(s[..|s| - 1]) + (s[|s| - 1] - '0') as nat
  }

  /** Reading back the digits `str` wrote gives the count again. */
  lemma {:induction false} DecimalRoundTrip(n: nat)
    ensures DecimalValue(DecimalDigits(n)) == n
    decreases n
  {
    var s := DecimalDigits(n);
    if n >= 10 {
      DecimalRoundTrip(n / 10);
      assert s[..|s| - 1] == DecimalDigits(n / 10);
    }
  }

  /** The f-string `{comment['like_count']}`: the count in decimal, or `None`. */
  function ShowCount(likeCount: Option<nat>): string {
    match likeCount
    case None => "None"
    case Some(n) => DecimalDigits(n)
  }

  /** The first paragraph of a comment's block. */
  function LikesLine(likeCount: Option<nat>): string {
    "Likes: " + ShowCount(likeCount)
  }

  /**
   * The text of `doc.add_paragraph(text)`: the paragraph gets a run only for
   * a truthy `text`, so a missing (`None`) text gives an empty paragraph.
   */
  function ParagraphText(text: Option<string>): string {
    text.GetOr("")
  }

  /** The part of a `docx.Document` that `create_docx` touches: its paragraphs, in order. */
  class Document {
    var paragraphs: seq<string>

    /** `docx.Document()`: a new, empty document. */
    constructor ()
      ensures paragraphs == []
    {
      paragraphs := [];
    }

    /** `doc.add_paragraph(text)`: one more paragraph, at the end. */
    method AddParagraph(text: string)
      modifies this
      ensures paragraphs == old(paragraphs) + [text]
    {
      paragraphs := paragraphs + [text];
    }
  }

  /** The three paragraphs written for one comment. */
  function Block(comment: Comment): seq<string> {
    [LikesLine(comment.likeCount), ParagraphText(comment.text), Separator]
  }

  /** The paragraphs written for `comments`, block after block. */
  ghost function Layout(comments: seq<Comment>): seq<string> {
    if comments == [] then [] else Layout(comments[..|comments| - 1]) + Block(comments[|comments| - 1])
  }

  /** Laying out one more comment appends its block. */
  lemma LayoutSnoc(comments: seq<Comment>, i: nat)
    requires i < |comments|
    ensures Layout(comments[..i + 1]) == Layout(comments[..i]) + Block(comments[i])
  {
    assert comments[..i + 1][..i] == comments[..i];
  }

  /** The layout holds three paragraphs per comment, in comment order. */
  lemma {:induction false} LayoutShape(comments: seq<Comment>)
    ensures |Layout(comments)| == 3 * |comments|
    ensures forall k :: 0 <= k < |comments| ==>
              && Layout(comments)[3 * k] == LikesLine(comments[k].likeCount)
              && Layout(comments)[3 * k + 1] == ParagraphText(comments[k].text)
              && Layout(comments)[3 * k + 2] == Separator
  {
    if comments != [] {
      var init := comments[..|comments| - 1];
      var last := comments[|comments| - 1];
      LayoutShape(init);
      var whole := Layout(comments);
      assert whole == Layout(init) + Block(last);
      forall k | 0 <= k < |comments|
        ensures && whole[3 * k] == LikesLine(comments[k].likeCount)
                && whole[3 * k + 1] == ParagraphText(comments[k].text)
                && whole[3 * k + 2] == Separator
      {
        if k < |init| {
          assert comments[k] == init[k];
          assert whole[3 * k] == Layout(init)[3 * k];
          assert whole[3 * k + 1] == Layout(init)[3 * k + 1];
          assert whole[3 * k + 2] == Layout(init)[3 * k + 2];
        } else {
          assert k == |init| && comments[k] == last;
          assert whole[3 * k..] == Block(last);
        }
      }
    }
  }

  /**
   * `create_docx` up to the encoding: for each comment in turn, the
   * paragraphs `Likes: <count>`, the comment's text and the separator.
   * Returns the new document's paragraphs.
   */
  method CreateDocx(comments: seq<Comment>) returns (paragraphs: seq<string>)
    ensures |paragraphs| == 3 * |comments|
    ensures forall k :: 0 <= k < |comments| ==>
              && paragraphs[3 * k] == LikesLine(comments[k].likeCount)
              && paragraphs[3 * k + 1] == ParagraphText(comments[k].text)
              && paragraphs[3 * k + 2] == Separator
  {
    var doc := new Document();
    for i := 0 to |comments|
      invariant doc.paragraphs == Layout(comments[..i])
    {
      ghost var before := doc.paragraphs;
      doc.AddParagraph(LikesLine(comments[i].likeCount));
      doc.AddParagraph(ParagraphText(comments[i].text));
      doc.AddParagraph(Separator);
      assert doc.paragraphs == before + Block(comments[i]);
      LayoutSnoc(comments, i);
    }
    paragraphs := doc.paragraphs;
    assert comments[..|comments|] == comments;
    LayoutShape(comments);
  }
}
