/** The output of the HTML tokenizer, as the mirror scan sees it. The
    tokenizer itself is not part of this model: a document is given as the
    finite sequence of tokens it would produce. */
module Html {

  /** The token types the tokenizer classifies into. */
  datatype TokenKind =
    | ErrorToken
    | TextToken
    | StartTagToken
    | EndTagToken
    | SelfClosingTagToken
    | CommentToken
    | DoctypeToken

  /** One `key="val"` attribute of a tag, key as the tokenizer reports it. */
  datatype Attribute = Attribute(key: string, val: string)

  /** A token: its kind, its tag name or text, and its attributes in the
      order they appear in the document. */
  datatype Token = Token(kind: TokenKind, data: string, attrs: seq<Attribute>)

  /** Only start tags and self-closing tags are inspected for links. */
  predicate IsTag(t: Token) {
    t.kind == StartTagToken || t.kind == SelfClosingTagToken
  }

  /** Only `href` and `src` attributes carry links. */
  predicate IsLinkKey(key: string) {
    key == "href" || key == "src"
  }
}
