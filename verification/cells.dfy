/**
 * Notebook cells as the analysis sees them, and the per-cell image checks
 * `checkTextCellForImageWithAccessIssues` and
 * `checkCodeCellForImageWithAccessIssues`.
 */
module Cells {
  import opened ImageScan

  /** A cell's model id. */
  type CellId = string

  datatype CellKind = Markdown | Code | Raw

  /**
   * A cell: its id, kind and source text, the `<img>` elements an HTML parser
   * finds in the source, and those it finds in the rendered output area.
   */
  datatype Cell = Cell(id: CellId, kind: CellKind, source: string, sourceImages: seq<HtmlImage>, outputImages: seq<HtmlImage>)

  /** The text-cell check: markdown cells only, HTML findings before markdown findings. */
  function TextCellIssues(c: Cell, an: Analysis): seq<string> {
    if c.kind == Markdown then MarkdownCellIssues(c.source, c.sourceImages, an) else []
  }

  /** The code-cell check: the HTML check over the rendered output of code cells only. */
  function CodeCellIssues(c: Cell, an: Analysis): seq<string> {
    if c.kind == Code then CheckHtml(c.outputImages, an) else []
  }

  /** All image issues of a cell: the text-cell ones, then the code-cell ones. */
  function CellImageIssues(c: Cell, an: Analysis): seq<string> {
    TextCellIssues(c, an) + CodeCellIssues(c, an)
  }

  /**
   * The missing-alt findings of a cell: a markdown cell reports one `"Alt"`
   * per `<img>` in its source without alt text and one more when its text
   * holds an empty-alt markdown image; a code cell one per `<img>` without
   * alt text in its output; a raw cell none. This holds whenever the image
   * analyses never return `"Alt"`, as number strings never are.
   */
  lemma {:induction false} CellAltCount(c: Cell, an: Analysis)
    requires forall u :: an.transparency(u) != "Alt" && an.contrast(u) != "Alt"
    ensures Count(CellImageIssues(c, an), "Alt") ==
      match c.kind
      case Markdown => CountLacking(c.sourceImages) + (if HasEmptyAltImage(c.source) then 1 else 0)
      case Code => CountLacking(c.outputImages)
      case Raw => 0
  {
    CellImageIssuesByKind(c, an);
    match c.kind
    case Markdown =>
      HtmlAltCount(c.sourceImages, an);
      MdAltAtMostOnce(c.source, an);
      CountAppend(CheckHtml(c.sourceImages, an), CheckMd(c.source, an), "Alt");
    case Code =>
      HtmlAltCount(c.outputImages, an);
    case Raw =>
  }

  /** Only markdown and code cells carry image issues, and only from their own kind's check. */
  lemma {:induction false} CellImageIssuesByKind(c: Cell, an: Analysis)
    ensures c.kind == Markdown ==> CellImageIssues(c, an) == MarkdownCellIssues(c.source, c.sourceImages, an)
    ensures c.kind == Code ==> CellImageIssues(c, an) == CheckHtml(c.outputImages, an)
    ensures c.kind == Raw ==> CellImageIssues(c, an) == []
  {
    var text, code := TextCellIssues(c, an), CodeCellIssues(c, an);
    assert CellImageIssues(c, an) == text + code;
    if c.kind == Markdown {
      assert code == [];
      assert text == MarkdownCellIssues(c.source, c.sourceImages, an);
      assert text + [] == text;
    } else if c.kind == Code {
      assert text == [];
      assert code == CheckHtml(c.outputImages, an);
      assert [] + code == code;
    } else {
      assert text == [] && code == [];
    }
  }
}
