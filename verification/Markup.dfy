/** The WordprocessingML tree the extraction stage reads: elements with a tag, the one text or
    attribute value the readers take from them, and children in document order. Tags stand for
    the elements some reader tells apart; every other element is an `Other`. Which tags are
    accepted by removal and which by unwrapping is said here, as is what a content control
    shows of itself. */
module Markup {
  import opened Prelude

  datatype Tag =
    // Paragraphs, runs and their properties
    | P | PPr | RPr | PStyle | OutlineLvl | Bold | R
    // Run content
    | T | DelText | TabMark | Br | Cr | NoBreakHyphen | SoftHyphen | Sym | CommentReference | FldChar | InstrText
    // Revisions: those with an accept rule, and those without
    | Ins | Del | MoveFrom | MoveTo
    | PropertyChange(name: string) | MoveRange(name: string) | OtherRevision(name: string)
    // Inline wrappers, content controls, simple fields, bookmarks
    | Hyperlink | SmartTag | Dir | Bdo | CustomXml | Sdt | SdtPr | SdtContent | ShowingPlcHdr
    | FldSimple | BookmarkStart
    // Block containers, and everything else
    | Tbl | Tr | Tc | Other(name: string)

  /** `val` is the text or attribute the readers take: a text element's text, a style or field
      name, an author. `hidden` is a run's effective `w:vanish`. */
  datatype Node = Node(tag: Tag, val: string, hidden: bool, children: seq<Node>)

  /** `_ACCEPT_BY_REMOVAL`. */
  predicate Removed(tag: Tag) {
    tag.Del? || tag.MoveFrom? || tag.PropertyChange? || tag.MoveRange?
  }

  /** `_ACCEPT_BY_UNWRAP`. */
  predicate Unwrapped(tag: Tag) {
    tag.Ins? || tag.MoveTo?
  }

  /** `_revision_markup_local_name`: revision markup, with an accept rule or without. */
  predicate IsRevision(tag: Tag) {
    Removed(tag) || Unwrapped(tag) || tag.OtherRevision?
  }

  /** `el.find(tag)`: the first direct child with the tag. */
  function Find(children: seq<Node>, tag: Tag): Option<Node> {
    if children == [] then None
    else if children[0].tag == tag then Some(children[0])
    else Find(children[1..], tag)
  }

  /** The children of the first direct child with the tag; none when there is no such child. */
  function FindChildren(children: seq<Node>, tag: Tag): seq<Node> {
    match Find(children, tag)
    case None => []
    case Some(node) => node.children
  }

  /** `sdt_is_placeholder`. */
  predicate ShowsPlaceholder(sdt: seq<Node>) {
    Find(FindChildren(sdt, SdtPr), ShowingPlcHdr).Some?
  }

  /** The reader-visible content of a content control: none while it shows its placeholder. */
  function ControlContent(sdt: seq<Node>): seq<Node> {
    if ShowsPlaceholder(sdt) then [] else FindChildren(sdt, SdtContent)
  }

  lemma {:induction false} FoundIsChild(children: seq<Node>, tag: Tag)
    ensures match Find(children, tag) case None => true case Some(node) => node in children && node.tag == tag
  {
    if children != [] && children[0].tag != tag { FoundIsChild(children[1..], tag); }
  }
}
