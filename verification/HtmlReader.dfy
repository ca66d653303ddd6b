/** A reader for the printer's output. It recovers every sanitised forest from its printed
    form, so the printer's output is unambiguous. */
module HtmlReader {
  import opened Common
  import opened Text
  import opened Html

  // ---------- unescaping ----------

  /** The character an entity at the front stands for, and the entity's length. */
  function Entity(s: string): (char, nat) {
    if "&amp;" <= s then ('&', 5)
    else if "&#39;" <= s then ('\'', 5)
    else if "&lt;" <= s then ('<', 4)
    else if "&gt;" <= s then ('>', 4)
    else if "&#34;" <= s then ('"', 5)
    else if "&#13;" <= s then ('\r', 5)
    else if s != [] then (s[0], 1)
    else ('?', 0)
  }

  function Unescape(s: string): string
    decreases |s|
  {
    if s == [] then [] else [Entity(s).0] + Unescape(s[Entity(s).1..])
  }

  lemma EntityOfChar(c: char, rest: string)
    ensures Entity(EscapeChar(c) + rest) == (c, |EscapeChar(c)|)
    ensures (EscapeChar(c) + rest)[|EscapeChar(c)|..] == rest
  {
    var s := EscapeChar(c) + rest;
    assert s[..|EscapeChar(c)|] == EscapeChar(c);
    if |EscapeChar(c)| > 1 {
      assert s[0] == '&' && s[1] == EscapeChar(c)[1] && s[2] == EscapeChar(c)[2] && s[3] == EscapeChar(c)[3];
    }
  }

  /** Escaping loses nothing. */
  lemma {:induction false} UnescapeEscape(s: string)
    ensures Unescape(Escape(s)) == s
  {
    if s != [] {
      EntityOfChar(s[0], Escape(s[1..]));
      UnescapeEscape(s[1..]);
    }
  }

  // ---------- attributes ----------

  function ReadAttrs(s: string): seq<Attr>
    decreases |s|
  {
    if |s| < 4 then []
    else
      var key := Until(s[1..], '=');
      if |key| + 3 > |s| then []
      else
        var afterQuote := s[|key| + 3..];
        var val := Until(afterQuote, '"');
        if |val| == |afterQuote| then []
        else [Attr(key, Unescape(val))] + ReadAttrs(afterQuote[|val| + 1..])
  }

  lemma AttrShape(key: string, val: string, rest: string)
    ensures var s := " " + (key + ("=\"" + (val + "\""))) + rest;
            && s[1..] == key + ("=\"" + (val + ("\"" + rest)))
            && s[|key| + 3..] == val + ("\"" + rest)
  {
  }

  /** One step of the reader on a text already cut at the delimiters. */
  lemma ReadStep(s: string, key: string, val: string, rest: string)
    requires |s| >= 4 && Until(s[1..], '=') == key && |key| + 3 <= |s|
    requires var after := s[|key| + 3..];
             Until(after, '"') == val && |val| < |after| && after[|val| + 1..] == rest
    ensures ReadAttrs(s) == [Attr(key, Unescape(val))] + ReadAttrs(rest)
  {
  }

  /** The reader on a text of the shape the printer gives an attribute. */
  lemma ReadShape(key: string, val: string, rest: string)
    requires Until(key + ("=\"" + (val + ("\"" + rest))), '=') == key
    requires Until(val + ("\"" + rest), '"') == val
    ensures ReadAttrs(" " + (key + ("=\"" + (val + "\""))) + rest) == [Attr(key, Unescape(val))] + ReadAttrs(rest)
  {
    AttrShape(key, val, rest);
    assert (val + ("\"" + rest))[|val| + 1..] == rest;
    ReadStep(" " + (key + ("=\"" + (val + "\""))) + rest, key, val, rest);
  }

  lemma ReadAttr(a: Attr, rest: string)
    requires a.key in IMAGE_ATTRS
    ensures ReadAttrs(PrintAttr(a) + rest) == [a] + ReadAttrs(rest)
  {
    NamesAreInert(a.key);
    EscapedIsInert(a.val);
    UnescapeEscape(a.val);
    UntilStops(a.key, "=\"" + (Escape(a.val) + ("\"" + rest)), '=');
    UntilStops(Escape(a.val), "\"" + rest, '"');
    ReadShape(a.key, Escape(a.val), rest);
  }

  lemma {:induction false} ReadPrintAttrs(attrs: seq<Attr>)
    requires AttrKeys(attrs)
    ensures ReadAttrs(PrintAttrs(attrs)) == attrs
  {
    if attrs != [] {
      var rest := attrs[1..];
      ReadPrintAttrs(rest);
      ReadAttr(attrs[0], PrintAttrs(rest));
      assert PrintAttrs(attrs) == PrintAttr(attrs[0]) + PrintAttrs(rest);
      assert attrs == [attrs[0]] + rest;
    }
  }

  // ---------- tokens ----------

  datatype Token = Chars(data: string) | Tag(body: string)

  function Render(t: Token): string {
    match t
    case Chars(data) => Escape(data)
    case Tag(body) => Bracket(body)
  }

  function RenderAll(ts: seq<Token>): string {
    if ts == [] then [] else Render(ts[0]) + RenderAll(ts[1..])
  }

  function Lex(s: string): seq<Token>
    decreases |s|
  {
    if s == [] then []
    else if s[0] == '<' then
      var body := Until(s[1..], '>');
      if |body| == |s| - 1 then [] else [Tag(body)] + Lex(s[|body| + 2..])
    else
      var chars := Until(s, '<');
      [Chars(Unescape(chars))] + Lex(s[|chars|..])
  }

  /** Tokens that can be told apart once rendered: text is non-empty and not followed by more
      text, and tag bodies hold no closing bracket. */
  predicate Separable(ts: seq<Token>) {
    if ts == [] then true
    else
      && (match ts[0]
          case Chars(data) => data != "" && (|ts| > 1 ==> ts[1].Tag?)
          case Tag(body) => '>' !in body)
      && Separable(ts[1..])
  }

  lemma {:induction false} LexRender(ts: seq<Token>)
    requires Separable(ts)
    ensures Lex(RenderAll(ts)) == ts
  {
    if ts != [] {
      LexRender(ts[1..]);
      match ts[0] {
        case Chars(data) => LexChars(data, RenderAll(ts[1..]));
        case Tag(body) => LexTag(body, RenderAll(ts[1..]));
      }
    }
  }

  lemma LexChars(data: string, rest: string)
    requires data != "" && (rest == [] || rest[0] == '<')
    ensures Lex(Escape(data) + rest) == [Chars(data)] + Lex(rest)
  {
    var s := Escape(data) + rest;
    EscapedIsInert(data);
    assert EscapeChar(data[0]) != [];
    assert s[0] == Escape(data)[0] && Escape(data)[0] in Escape(data);
    UntilStops(Escape(data), rest, '<');
    assert s[|Escape(data)|..] == rest;
    UnescapeEscape(data);
  }

  lemma LexTag(body: string, rest: string)
    requires '>' !in body
    ensures Lex(Bracket(body) + rest) == [Tag(body)] + Lex(rest)
  {
    var s := Bracket(body) + rest;
    assert s[1..] == body + (">" + rest);
    UntilStops(body, ">" + rest, '>');
    assert s[|body| + 2..] == rest;
  }

  // ---------- from forests to tokens ----------

  function TokensOf(n: Node): seq<Token> {
    match n
    case Text(data) => [Chars(data)]
    case Element(tag, attrs, children) =>
      if tag == "br" then [Tag("br")]
      else if tag == "img" then [Tag("img" + PrintAttrs(attrs))]
      else [Tag(tag)] + (TokensOfAll(children) + [Tag("/" + tag)])
    case Other(children) => TokensOfAll(children)
  }

  function TokensOfAll(ns: Nodes): seq<Token> {
    match ns
    case End => []
    case Sibling(n, next) => TokensOf(n) + TokensOfAll(next)
  }

  lemma {:induction false} RenderAppend(a: seq<Token>, b: seq<Token>)
    ensures RenderAll(a + b) == RenderAll(a) + RenderAll(b)
  {
    if a == [] {
      assert a + b == b;
    } else {
      assert (a + b)[1..] == a[1..] + b;
      RenderAppend(a[1..], b);
    }
  }

  lemma RenderOne(t: Token)
    ensures RenderAll([t]) == Render(t)
  {
    assert [t][1..] == [];
  }

  lemma {:induction false} TokensRenderNode(n: Node)
    requires CleanNode(n)
    ensures RenderAll(TokensOf(n)) == PrintNode(n)
  {
    match n {
      case Text(data) => RenderOne(Chars(data));
      case Element(tag, attrs, children) =>
        if tag == "br" {
          RenderOne(Tag("br"));
        } else if tag == "img" {
          RenderOne(Tag("img" + PrintAttrs(attrs)));
        } else {
          TokensRender(children);
          RenderOne(Tag(tag));
          RenderOne(Tag("/" + tag));
          RenderAppend([Tag(tag)], TokensOfAll(children) + [Tag("/" + tag)]);
          RenderAppend(TokensOfAll(children), [Tag("/" + tag)]);
        }
    }
  }

  /** Printing a clean forest is rendering its tokens. */
  lemma {:induction false} TokensRender(ns: Nodes)
    requires CleanNodes(ns)
    ensures RenderAll(TokensOfAll(ns)) == PrintNodes(ns)
  {
    match ns {
      case End =>
      case Sibling(n, next) =>
        TokensRenderNode(n);
        TokensRender(next);
        RenderAppend(TokensOf(n), TokensOfAll(next));
    }
  }

  lemma {:induction false} SeparableAppend(a: seq<Token>, b: seq<Token>)
    requires Separable(a) && Separable(b)
    requires a == [] || b == [] || a[|a| - 1].Tag? || b[0].Tag?
    ensures Separable(a + b)
  {
    if a == [] {
      assert a + b == b;
    } else {
      assert (a + b)[1..] == a[1..] + b;
      SeparableAppend(a[1..], b);
    }
  }

  /** A node's tokens are never empty; they start and end with text only if it is text. */
  lemma TokensShape(n: Node)
    requires CleanNode(n)
    ensures var ts := TokensOf(n);
            ts != [] && (ts[0].Chars? <==> n.Text?) && (ts[|ts| - 1].Chars? <==> n.Text?)
  {
  }

  lemma {:induction false} TokensSeparableNode(n: Node)
    requires CleanNode(n)
    ensures Separable(TokensOf(n))
  {
    if n.Element? {
      if n.tag == "img" {
        KeptKeys(n.attrs);
        PrintAttrsInert(n.attrs);
      } else if n.tag != "br" {
        TokensSeparable(n.firstChild);
        NamesAreInert(n.tag);
        SeparableAppend(TokensOfAll(n.firstChild), [Tag("/" + n.tag)]);
        SeparableAppend([Tag(n.tag)], TokensOfAll(n.firstChild) + [Tag("/" + n.tag)]);
      }
    }
  }

  lemma {:induction false} TokensSeparable(ns: Nodes)
    requires CleanNodes(ns)
    ensures Separable(TokensOfAll(ns))
  {
    match ns {
      case End =>
      case Sibling(n, next) =>
        TokensSeparableNode(n);
        TokensSeparable(next);
        TokensShape(n);
        if next.Sibling? {
          TokensShape(next.node);
          assert TokensOfAll(next)[0] == TokensOf(next.node)[0];
        }
        SeparableAppend(TokensOf(n), TokensOfAll(next));
    }
  }

  // ---------- from tokens to forests ----------

  predicate Closing(t: Token) {
    t.Tag? && |t.body| > 0 && t.body[0] == '/'
  }

  /** Siblings up to a closing tag or the end, and the tokens left. */
  function Parse(ts: seq<Token>): (r: (Nodes, seq<Token>))
    ensures |r.1| <= |ts|
    decreases |ts|
  {
    if ts == [] || Closing(ts[0]) then (End, ts)
    else
      match ts[0]
      case Chars(data) =>
        var (next, rest) := Parse(ts[1..]);
        (Sibling(Text(data), next), rest)
      case Tag(body) =>
        if body == "br" then
          var (next, rest) := Parse(ts[1..]);
          (Sibling(Element("br", [], End), next), rest)
        else if "img" <= body then
          var (next, rest) := Parse(ts[1..]);
          (Sibling(Element("img", ReadAttrs(body[3..]), End), next), rest)
        else
          var (children, left) := Parse(ts[1..]);
          var (next, rest) := Parse(if left == [] then [] else left[1..]);
          (Sibling(Element(body, [], children), next), rest)
  }

  predicate AtClose(rest: seq<Token>) {
    rest == [] || Closing(rest[0])
  }

  lemma ParseVoid(t: Token, n: Node, next: Nodes, tail: seq<Token>, rest: seq<Token>)
    requires n.Text? || (n.Element? && (n.tag == "br" || n.tag == "img"))
    requires CleanNode(n) && TokensOf(n) == [t]
    requires Parse(tail) == (next, rest)
    ensures Parse([t] + tail) == (Sibling(n, next), rest)
  {
    assert ([t] + tail)[1..] == tail;
    if n.Element? && n.tag == "img" {
      KeptKeys(n.attrs);
      ReadPrintAttrs(n.attrs);
      assert t.body[3..] == PrintAttrs(n.attrs);
      assert "img" <= t.body;
    }
  }

  lemma ParsePair(tag: string, children: Nodes, next: Nodes, inside: seq<Token>, tail: seq<Token>, rest: seq<Token>)
    requires tag in PLAIN_TAGS
    requires Parse(inside + ([Tag("/" + tag)] + tail)) == (children, [Tag("/" + tag)] + tail)
    requires Parse(tail) == (next, rest)
    ensures Parse([Tag(tag)] + (inside + [Tag("/" + tag)]) + tail) == (Sibling(Element(tag, [], children), next), rest)
  {
    var left := [Tag("/" + tag)] + tail;
    var ts := [Tag(tag)] + (inside + [Tag("/" + tag)]) + tail;
    assert ts == [Tag(tag)] + (inside + left);
    ParseNested(tag, ts, children, left);
    assert left[1..] == tail;
  }

  /** Parsing a forest that begins with a plain element. */
  lemma ParseNested(tag: string, ts: seq<Token>, children: Nodes, left: seq<Token>)
    requires tag in PLAIN_TAGS && ts != [] && ts[0] == Tag(tag) && left != []
    requires Parse(ts[1..]) == (children, left)
    ensures Parse(ts) == (Sibling(Element(tag, [], children), Parse(left[1..]).0), Parse(left[1..]).1)
  {
    NamesAreInert(tag);
    assert !("img" <= tag);
  }

  lemma ParseVoidSibling(n: Node, next: Nodes, rest: seq<Token>)
    requires CleanNode(n) && !(n.Element? && n.tag in PLAIN_TAGS)
    requires Parse(TokensOfAll(next) + rest) == (next, rest)
    ensures Parse(TokensOf(n) + (TokensOfAll(next) + rest)) == (Sibling(n, next), rest)
  {
    assert TokensOf(n) == [TokensOf(n)[0]];
    ParseVoid(TokensOf(n)[0], n, next, TokensOfAll(next) + rest, rest);
  }

  lemma PairTokens(n: Node)
    requires CleanNode(n) && n.Element? && n.tag in PLAIN_TAGS
    ensures TokensOf(n) == [Tag(n.tag)] + (TokensOfAll(n.firstChild) + [Tag("/" + n.tag)])
    ensures n == Element(n.tag, [], n.firstChild)
  {
  }

  lemma ParsePairSibling(n: Node, next: Nodes, rest: seq<Token>)
    requires CleanNode(n) && n.Element? && n.tag in PLAIN_TAGS
    requires Parse(TokensOfAll(next) + rest) == (next, rest)
    requires var left := [Tag("/" + n.tag)] + (TokensOfAll(next) + rest);
             Parse(TokensOfAll(n.firstChild) + left) == (n.firstChild, left)
    ensures Parse(TokensOf(n) + (TokensOfAll(next) + rest)) == (Sibling(n, next), rest)
  {
    var inside, tail := TokensOfAll(n.firstChild), TokensOfAll(next) + rest;
    PairTokens(n);
    ParsePair(n.tag, n.firstChild, next, inside, tail, rest);
  }

  /** Parsing the tokens of a clean forest gives the forest back. */
  lemma {:induction false} ParseTokens(ns: Nodes, rest: seq<Token>)
    requires CleanNodes(ns) && AtClose(rest)
    ensures Parse(TokensOfAll(ns) + rest) == (ns, rest)
  {
    match ns {
      case End => assert TokensOfAll(ns) + rest == rest;
      case Sibling(n, next) =>
        ParseTokens(next, rest);
        Assoc(TokensOf(n), TokensOfAll(next), rest);
        if n.Element? && n.tag in PLAIN_TAGS {
          ParseTokens(n.firstChild, [Tag("/" + n.tag)] + (TokensOfAll(next) + rest));
          ParsePairSibling(n, next, rest);
        } else {
          ParseVoidSibling(n, next, rest);
        }
    }
  }

  // ---------- the reader ----------

  function Read(s: string): Nodes {
    Parse(Lex(s)).0
  }

  /** The reader inverts the printer on every sanitised forest, for all nestings, texts and
      attribute values. */
  lemma ReadPrint(ns: Nodes)
    requires CleanNodes(ns)
    ensures Read(PrintNodes(ns)) == ns
  {
    TokensRender(ns);
    TokensSeparable(ns);
    LexRender(TokensOfAll(ns));
    ParseTokens(ns, []);
    assert TokensOfAll(ns) + [] == TokensOfAll(ns);
  }

  /** Unambiguous output: two forests print the same exactly when they sanitise to the same
      forest. */
  lemma PrinterIsUnambiguous(ns: Nodes, ms: Nodes)
    ensures PrintNodes(ns) == PrintNodes(ms) <==> Sanitise(ns) == Sanitise(ms)
    ensures Read(PrintNodes(ns)) == Sanitise(ns)
  {
    PrintFactorsThroughSanitise(ns);
    PrintFactorsThroughSanitise(ms);
    SanitiseIsIdempotent(ns);
    SanitiseIsIdempotent(ms);
    ReadPrint(Sanitise(ns));
    ReadPrint(Sanitise(ms));
  }

  /** Whatever the input, the output reads as a forest of allowed elements whose only
      attributes are good ones of images. */
  lemma OutputIsAllowed(ns: Nodes)
    ensures OnlyAllowed(Read(PrintNodes(ns)))
  {
    PrinterIsUnambiguous(ns, ns);
    SanitiseIsIdempotent(ns);
    CleanIsAllowed(Sanitise(ns));
  }

  /** Exactly the elements of eight tags survive, each as often as it occurs in the input. */
  lemma ElementsSurvive(tag: string, ns: Nodes)
    ensures TagCount(tag, Read(PrintNodes(ns))) ==
            if tag in {"b", "i", "u", "strong", "span", "div", "br", "img"} then TagCount(tag, ns) else 0
  {
    PrinterIsUnambiguous(ns, ns);
    OutputIsAllowed(ns);
    if SurvivingTag(tag) {
      SanitiseNodesKeepTags(tag, ns, End);
    } else {
      CleanHasNoOtherTags(tag, Read(PrintNodes(ns)));
    }
  }
}
