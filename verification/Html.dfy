/** The HTML printer of the cleaner template (internal/infrastructure/sanitize/html_cleaner.go
    and strip.go). Its input is the node forest the HTML parser produced, linked by first child
    and next sibling as in golang.org/x/net/html. */
module Html {
  import opened Common
  import opened Text

  datatype Attr = Attr(key: string, val: string)

  /** `Other` stands for comments, doctypes and the document node. */
  datatype Node =
    | Text(data: string)
    | Element(tag: string, attrs: seq<Attr>, firstChild: Nodes)
    | Other(firstChild: Nodes)

  datatype Nodes = End | Sibling(node: Node, next: Nodes)

  // ---------- escaping ----------

  /** html.EscapeString of golang.org/x/net/html, character by character. */
  function EscapeChar(c: char): string {
    if c == '&' then "&amp;"
    else if c == '\'' then "&#39;"
    else if c == '<' then "&lt;"
    else if c == '>' then "&gt;"
    else if c == '"' then "&#34;"
    else if c == '\r' then "&#13;"
    else [c]
  }

  function Escape(s: string): string {
    if s == [] then [] else EscapeChar(s[0]) + Escape(s[1..])
  }

  lemma {:induction false} EscapeAppend(a: string, b: string)
    ensures Escape(a + b) == Escape(a) + Escape(b)
  {
    if a == [] {
      assert a + b == b;
    } else {
      assert (a + b)[1..] == a[1..] + b;
      EscapeAppend(a[1..], b);
    }
  }

  predicate Inert(s: string) {
    '<' !in s && '>' !in s && '"' !in s
  }

  /** Escaped text holds none of the characters that delimit tags and attribute values. */
  lemma {:induction false} EscapedIsInert(s: string)
    ensures Inert(Escape(s))
  {
    if s != [] {
      assert Inert(EscapeChar(s[0]));
      EscapedIsInert(s[1..]);
    }
  }

  // ---------- what is allowed ----------

  const PLAIN_TAGS: set<string> := {"b", "i", "u", "strong", "span", "div"}
  const IMAGE_ATTRS: set<string> := {"src", "alt", "title", "width", "height"}
  const IMAGE_SCHEMES: set<string> := {"http", "https", "data"}

  predicate Allowed(tag: string) {
    tag in PLAIN_TAGS || tag == "br" || tag == "img"
  }

  /** isSafeImageSrc. */
  predicate IsSafeImageSrc(val: string) {
    var scheme := Until(val, ':');
    if |scheme| == |val| || |scheme| == 0 then true
    else if '/' in scheme || '?' in scheme || '#' in scheme then true
    else ToLower(scheme) in IMAGE_SCHEMES
  }

  /** A value that starts with a scheme is safe exactly when the scheme, in any case, is one
      of the vetted ones. */
  lemma SchemeDecides(scheme: string, rest: string)
    requires scheme != [] && ':' !in scheme && '/' !in scheme && '?' !in scheme && '#' !in scheme
    ensures IsSafeImageSrc(scheme + ":" + rest) <==> ToLower(scheme) in IMAGE_SCHEMES
  {
    assert scheme + ":" + rest == scheme + (":" + rest);
    UntilStops(scheme, ":" + rest, ':');
  }

  /** Equal up to the case of ASCII letters, written without the library functions. */
  predicate SameWord(a: string, lower: string) {
    |a| == |lower| &&
    forall i | 0 <= i < |a| :: a[i] == lower[i] || ('A' <= a[i] <= 'Z' && a[i] as int + 32 == lower[i] as int)
  }

  /** What an image may refer to: a name without a colon, or with the colon first, or with a
      path, query or fragment sign in front of it; or an http, https or data address. */
  predicate MediaName(v: string) {
    || ':' !in v
    || v[0] == ':'
    || (exists i :: 0 <= i < |v| && SignFirst(v, i))
    || (exists i :: 0 <= i < |v| && v[i] == ':' &&
                    (SameWord(v[..i], "http") || SameWord(v[..i], "https") || SameWord(v[..i], "data")))
  }

  lemma LowersTo(a: string, lower: string)
    requires lower in {"http", "https", "data"}
    ensures ToLower(a) == lower <==> SameWord(a, lower)
  {
    if |a| == |lower| {
      forall i | 0 <= i < |a|
        ensures ToLower(a)[i] == lower[i] <==>
                a[i] == lower[i] || ('A' <= a[i] <= 'Z' && a[i] as int + 32 == lower[i] as int)
      {
        assert lower[i] in {'h', 't', 'p', 's', 'd', 'a'};
      }
      assert ToLower(a) == lower <==> forall i | 0 <= i < |a| :: ToLower(a)[i] == lower[i];
    }
  }

  /** The first colon is where the scheme ends. */
  lemma FirstColon(v: string, i: nat)
    requires i < |v| && v[i] == ':' && ':' !in v[..i]
    ensures Until(v, ':') == v[..i]
  {
    UntilStops(v[..i], v[i..], ':');
    assert v == v[..i] + v[i..];
  }

  lemma {:induction false} NoColonBefore(v: string, i: nat)
    requires i <= |v| && ':' !in v[..i]
    ensures i <= |Until(v, ':')|
  {
    if i > 0 {
      assert v[..i][0] in v[..i];
      assert v[1..][..i - 1] == v[..i][1..];
      NoColonBefore(v[1..], i - 1);
    }
  }

  /** A sign before the first colon, and a sign in what comes before the first colon. */
  predicate SignFirst(v: string, i: int) {
    0 <= i < |v| && v[i] in {'/', '?', '#'} && ':' !in v[..i]
  }

  lemma SignIsInScheme(v: string, i: int)
    requires SignFirst(v, i)
    ensures v[i] in Until(v, ':')
  {
    var scheme := Until(v, ':');
    NoColonBefore(v, i);
    assert |scheme| < |v| ==> v[|scheme|] == ':';
    assert scheme[i] == v[i];
  }

  lemma SchemeSignIsFirst(v: string, i: int)
    requires 0 <= i < |Until(v, ':')| && Until(v, ':')[i] in {'/', '?', '#'}
    ensures SignFirst(v, i)
  {
    var scheme := Until(v, ':');
    assert v[..i] == scheme[..i];
    assert forall k | 0 <= k < i :: scheme[..i][k] == scheme[k] && scheme[k] in scheme;
  }

  lemma SignInScheme(v: string)
    ensures (exists i :: 0 <= i < |v| && SignFirst(v, i)) <==>
            '/' in Until(v, ':') || '?' in Until(v, ':') || '#' in Until(v, ':')
  {
    if i :| SignFirst(v, i) {
      SignIsInScheme(v, i);
    }
    var scheme := Until(v, ':');
    if '/' in scheme || '?' in scheme || '#' in scheme {
      var i :| 0 <= i < |scheme| && scheme[i] in {'/', '?', '#'};
      SchemeSignIsFirst(v, i);
    }
  }

  lemma WordBeforeColon(v: string, lower: string)
    requires ':' in v && lower in {"http", "https", "data"}
    ensures (exists i :: 0 <= i < |v| && v[i] == ':' && SameWord(v[..i], lower)) <==> ToLower(Until(v, ':')) == lower
  {
    var scheme := Until(v, ':');
    assert v[..|v|] == v && scheme == v[..|scheme|];
    LowersTo(scheme, lower);
    if i :| 0 <= i < |v| && v[i] == ':' && SameWord(v[..i], lower) {
      NoColonInWord(v[..i]);
      FirstColon(v, i);
    }
    if SameWord(scheme, lower) {
      assert v[|scheme|] == ':' && SameWord(v[..|scheme|], lower);
    }
  }

  /** isSafeImageSrc accepts exactly these. */
  lemma SafeIsMediaName(v: string)
    ensures IsSafeImageSrc(v) <==> MediaName(v)
  {
    var scheme := Until(v, ':');
    assert |scheme| < |v| ==> v[|scheme|] in v;
    if ':' in v {
      assert v[..|v|] == v && scheme == v[..|scheme|];
      SignInScheme(v);
      WordBeforeColon(v, "http");
      WordBeforeColon(v, "https");
      WordBeforeColon(v, "data");
    }
  }

  lemma NoColonInWord(a: string)
    requires SameWord(a, "http") || SameWord(a, "https") || SameWord(a, "data")
    ensures ':' !in a
  {
  }

  /** The attribute writeImage emits for `a`, if any. */
  function KeptAttr(a: Attr): Option<Attr> {
    var key := ToLower(TrimSpace(a.key));
    var val := TrimSpace(a.val);
    if key !in IMAGE_ATTRS || val == "" then None
    else if key == "src" && !IsSafeImageSrc(val) then None
    else Some(Attr(key, a.val))
  }

  function KeptAttrs(attrs: seq<Attr>): seq<Attr> {
    if attrs == [] then []
    else
      match KeptAttr(attrs[0])
      case None => KeptAttrs(attrs[1..])
      case Some(kept) => [kept] + KeptAttrs(attrs[1..])
  }

  /** What is kept is kept again unchanged. */
  lemma KeptAttrStable(a: Attr)
    requires KeptAttr(a).Some?
    ensures KeptAttr(KeptAttr(a).value) == KeptAttr(a)
  {
    LowerCaseWord(KeptAttr(a).value.key);
  }

  lemma {:induction false} KeptAttrsStable(attrs: seq<Attr>)
    ensures KeptAttrs(KeptAttrs(attrs)) == KeptAttrs(attrs)
  {
    if attrs != [] {
      KeptAttrsStable(attrs[1..]);
      if KeptAttr(attrs[0]).Some? {
        KeptAttrStable(attrs[0]);
        assert KeptAttrs(attrs)[1..] == KeptAttrs(attrs[1..]);
      }
    }
  }

  /** An attribute an image may carry: a vetted name, a value that is not blank, and for src
      a safe one. */
  predicate GoodAttr(a: Attr) {
    a.key in IMAGE_ATTRS && TrimSpace(a.val) != "" && (a.key == "src" ==> IsSafeImageSrc(TrimSpace(a.val)))
  }

  /** An attribute under its normalised name, its value untouched. */
  function Normalised(a: Attr): Attr {
    Attr(ToLower(TrimSpace(a.key)), a.val)
  }

  function NormalisedAll(attrs: seq<Attr>): seq<Attr> {
    seq(|attrs|, i requires 0 <= i < |attrs| => Normalised(attrs[i]))
  }

  lemma KeptIsGoodNormalised(a: Attr)
    ensures KeptAttr(a) == if GoodAttr(Normalised(a)) then Some(Normalised(a)) else None
  {
  }

  lemma {:induction false} KeptIsFilter(attrs: seq<Attr>)
    ensures KeptAttrs(attrs) == Filter(NormalisedAll(attrs), GoodAttr)
  {
    if attrs != [] {
      var rest, all := attrs[1..], NormalisedAll(attrs);
      KeptIsFilter(rest);
      KeptIsGoodNormalised(attrs[0]);
      assert all[0] == Normalised(attrs[0]);
      assert all[1..] == NormalisedAll(rest);
    }
  }

  /** Where the attributes are that are good once normalised. */
  function GoodAt(attrs: seq<Attr>): seq<nat> {
    Where(NormalisedAll(attrs), GoodAttr)
  }

  /** An image keeps exactly its good attributes, position by position in ascending order, under
      their normalised names and with their values untouched. */
  lemma KeptAttrsMeaning(attrs: seq<Attr>)
    ensures var at := GoodAt(attrs);
            && (forall k | 0 <= k < |at| :: at[k] < |attrs|)
            && (forall k, l | 0 <= k < l < |at| :: at[k] < at[l])
            && (forall i: nat :: i in at <==> i < |attrs| && GoodAttr(Normalised(attrs[i])))
            && |KeptAttrs(attrs)| == |at|
            && forall k | 0 <= k < |at| :: KeptAttrs(attrs)[k] == Normalised(attrs[at[k]])
  {
    KeptIsFilter(attrs);
    FilterMeaning(NormalisedAll(attrs), GoodAttr);
    var all, at := NormalisedAll(attrs), GoodAt(attrs);
    forall i: nat
      ensures i in at <==> i < |attrs| && GoodAttr(Normalised(attrs[i]))
    {
      if i in at {
        var k :| 0 <= k < |at| && at[k] == i;
        assert GoodAttr(all[at[k]]);
      }
      if i < |attrs| {
        assert all[i] == Normalised(attrs[i]);
      }
    }
  }

  /** So whatever it keeps is good. */
  lemma KeptIsGood(attrs: seq<Attr>, a: Attr)
    requires a in KeptAttrs(attrs)
    ensures GoodAttr(a)
  {
    KeptAttrsMeaning(attrs);
    var k :| 0 <= k < |KeptAttrs(attrs)| && KeptAttrs(attrs)[k] == a;
    assert GoodAt(attrs)[k] in GoodAt(attrs);
  }

  // ---------- the printer ----------

  function PrintAttr(a: Attr): string {
    " " + (a.key + ("=\"" + (Escape(a.val) + "\"")))
  }

  function PrintAttrs(attrs: seq<Attr>): string {
    if attrs == [] then [] else PrintAttr(attrs[0]) + PrintAttrs(attrs[1..])
  }

  /** A tag with everything between its angle brackets. */
  function Bracket(body: string): string {
    "<" + body + ">"
  }

  function ImageBody(attrs: seq<Attr>): string {
    "img" + PrintAttrs(KeptAttrs(attrs))
  }

  function PrintNode(n: Node): string {
    match n
    case Text(data) => Escape(data)
    case Element(tag, attrs, children) =>
      if !Allowed(tag) then PrintNodes(children)
      else if tag == "br" then Bracket("br")
      else if tag == "img" then Bracket(ImageBody(attrs))
      else Bracket(tag) + (PrintNodes(children) + Bracket("/" + tag))
    case Other(children) => PrintNodes(children)
  }

  function PrintNodes(ns: Nodes): string {
    match ns
    case End => []
    case Sibling(n, next) => PrintNode(n) + PrintNodes(next)
  }

  // ---------- what is printed, in literals ----------

  /** The entities, and nothing else, replace characters. */
  lemma EscapeTable(c: char)
    ensures var entities := map['&' := "&amp;", '\'' := "&#39;", '<' := "&lt;", '>' := "&gt;", '"' := "&#34;",
                                '\r' := "&#13;"];
            Escape([c]) == if c in entities then entities[c] else [c]
  {
    assert [c][1..] == [];
  }

  lemma OneAttr(a: Attr)
    ensures KeptAttrs([a]) == match KeptAttr(a) case Some(kept) => [kept] case None => []
    ensures Bracket("img" + PrintAttrs([a])) == "<img " + (a.key + ("=\"" + (Escape(a.val) + "\""))) + ">"
  {
    assert [a][1..] == [];
    assert PrintAttrs([a]) == PrintAttr(a) + [];
    var rest := a.key + ("=\"" + (Escape(a.val) + "\""));
    assert "<" + ("img" + (" " + rest)) == "<img " + rest;
  }

  /** An image attribute in the output: exactly the five names, without blank values, and src
      only for a media name. */
  lemma ImagePrints(a: Attr, children: Nodes)
    ensures var key := ToLower(TrimSpace(a.key));
            var kept := key in {"src", "alt", "title", "width", "height"} && TrimSpace(a.val) != "" &&
                        (key == "src" ==> MediaName(TrimSpace(a.val)));
            PrintNode(Element("img", [a], children)) ==
            if kept then "<img " + (key + ("=\"" + (Escape(a.val) + "\""))) + ">" else "<img>"
  {
    SafeIsMediaName(TrimSpace(a.val));
    OneAttr(a);
    if KeptAttr(a).Some? {
      OneAttr(KeptAttr(a).value);
    } else {
      assert Bracket("img" + PrintAttrs([])) == "<img>";
    }
  }

  // ---------- the imperative writer ----------

  /** strings.Builder. */
  class Builder {
    var text: string

    constructor ()
      ensures text == ""
    {
      text := "";
    }

    method WriteString(s: string)
      modifies this
      ensures text == old(text) + s
    {
      text := text + s;
    }
  }

  function NodeSize(n: Node): nat {
    match n
    case Text(_) => 1
    case Element(_, _, children) => 1 + NodesSize(children)
    case Other(children) => 1 + NodesSize(children)
  }

  function NodesSize(ns: Nodes): nat {
    match ns
    case End => 0
    case Sibling(n, next) => NodeSize(n) + NodesSize(next)
  }

  lemma NodeSizePositive(n: Node)
    ensures NodeSize(n) > 0
  {
  }

  method WriteNode(b: Builder, n: Node)
    modifies b
    ensures b.text == old(b.text) + PrintNode(n)
    decreases NodeSize(n), 1
  {
    match n {
      case Text(data) =>
        b.WriteString(Escape(data));
      case Element(tag, attrs, children) =>
        if Allowed(tag) {
          if tag == "br" {
            b.WriteString("<br>");
            assert "<br>" == Bracket("br");
            return;
          }
          if tag == "img" {
            WriteImage(b, n);
            return;
          }
          WriteOpen(b, tag);
          WriteSiblings(b, children);
          WriteClose(b, tag);
          Assoc(old(b.text), Bracket(tag), PrintNodes(children));
          Assoc(old(b.text), Bracket(tag) + PrintNodes(children), Bracket("/" + tag));
          Assoc(Bracket(tag), PrintNodes(children), Bracket("/" + tag));
          return;
        }
        WriteSiblings(b, children);
      case Other(children) =>
        WriteSiblings(b, children);
    }
  }

  method WriteOpen(b: Builder, tag: string)
    modifies b
    ensures b.text == old(b.text) + Bracket(tag)
  {
    b.WriteString("<");
    b.WriteString(tag);
    b.WriteString(">");
  }

  method WriteClose(b: Builder, tag: string)
    modifies b
    ensures b.text == old(b.text) + Bracket("/" + tag)
  {
    b.WriteString("</");
    b.WriteString(tag);
    b.WriteString(">");
  }

  /** The loop over a node's children. */
  method WriteSiblings(b: Builder, first: Nodes)
    modifies b
    ensures b.text == old(b.text) + PrintNodes(first)
    decreases NodesSize(first) + 1, 0
  {
    var c := first;
    while c.Sibling?
      invariant NodesSize(c) <= NodesSize(first)
      invariant old(b.text) + PrintNodes(first) == b.text + PrintNodes(c)
      decreases NodesSize(c)
    {
      NodeSizePositive(c.node);
      Assoc(b.text, PrintNode(c.node), PrintNodes(c.next));
      WriteNode(b, c.node);
      c := c.next;
    }
  }

  method WriteImage(b: Builder, n: Node)
    requires n.Element?
    modifies b
    ensures b.text == old(b.text) + Bracket(ImageBody(n.attrs))
  {
    b.WriteString("<img");
    WriteAttrs(b, n.attrs);
    b.WriteString(">");
    ImageText(old(b.text), PrintAttrs(KeptAttrs(n.attrs)));
  }

  lemma ImageText(text: string, attrs: string)
    ensures text + "<img" + attrs + ">" == text + Bracket("img" + attrs)
  {
  }

  /** The loop over the image's attributes. */
  method WriteAttrs(b: Builder, attrs: seq<Attr>)
    modifies b
    ensures b.text == old(b.text) + PrintAttrs(KeptAttrs(attrs))
  {
    for i := 0 to |attrs|
      invariant b.text + PrintAttrs(KeptAttrs(attrs[i..])) == old(b.text) + PrintAttrs(KeptAttrs(attrs))
    {
      var attr := attrs[i];
      assert attrs[i..][1..] == attrs[i + 1..];
      var key := ToLower(TrimSpace(attr.key));
      var val := TrimSpace(attr.val);
      if key !in IMAGE_ATTRS || val == "" {
        continue;
      }
      if key == "src" && !IsSafeImageSrc(val) {
        continue;
      }
      assert KeptAttr(attr) == Some(Attr(key, attr.val));
      PrintAttrsCons(Attr(key, attr.val), KeptAttrs(attrs[i + 1..]));
      Assoc(b.text, PrintAttr(Attr(key, attr.val)), PrintAttrs(KeptAttrs(attrs[i + 1..])));
      WriteAttr(b, key, attr.val);
    }
    assert attrs[|attrs|..] == [];
  }

  method WriteAttr(b: Builder, key: string, val: string)
    modifies b
    ensures b.text == old(b.text) + PrintAttr(Attr(key, val))
  {
    b.WriteString(" ");
    b.WriteString(key);
    b.WriteString("=\"");
    b.WriteString(Escape(val));
    b.WriteString("\"");
  }

  lemma PrintAttrsCons(a: Attr, rest: seq<Attr>)
    ensures PrintAttrs([a] + rest) == PrintAttr(a) + PrintAttrs(rest)
  {
    assert ([a] + rest)[1..] == rest;
  }

  // ---------- plain text ----------

  function PlainNode(n: Node): string {
    match n
    case Text(data) => data
    case Element(_, _, children) => PlainNodes(children)
    case Other(children) => PlainNodes(children)
  }

  function PlainNodes(ns: Nodes): string {
    match ns
    case End => []
    case Sibling(n, next) => PlainNode(n) + PlainNodes(next)
  }

  method WritePlainText(b: Builder, n: Node)
    modifies b
    ensures b.text == old(b.text) + PlainNode(n)
    decreases NodeSize(n)
  {
    if n.Text? {
      b.WriteString(n.data);
      return;
    }
    var c := n.firstChild;
    while c.Sibling?
      invariant NodesSize(c) < NodeSize(n)
      invariant old(b.text) + PlainNode(n) == b.text + PlainNodes(c)
      decreases NodesSize(c)
    {
      NodeSizePositive(c.node);
      WritePlainText(b, c.node);
      c := c.next;
    }
  }

  // ---------- the tree filter ----------

  /** A node in front of siblings, with empty text dropped and adjacent text merged. */
  function Glue(n: Node, rest: Nodes): Nodes {
    if !n.Text? then Sibling(n, rest)
    else if n.data == "" then rest
    else if rest.Sibling? && rest.node.Text? then Sibling(Text(n.data + rest.node.data), rest.next)
    else Sibling(n, rest)
  }

  /** The sanitised node in front of siblings that are already sanitised. */
  function SanitiseNode(n: Node, rest: Nodes): Nodes {
    match n
    case Text(_) => Glue(n, rest)
    case Element(tag, attrs, children) =>
      if !Allowed(tag) then SanitiseNodes(children, rest)
      else if tag == "br" then Sibling(Element("br", [], End), rest)
      else if tag == "img" then Sibling(Element("img", KeptAttrs(attrs), End), rest)
      else Sibling(Element(tag, [], SanitiseNodes(children, End)), rest)
    case Other(children) => SanitiseNodes(children, rest)
  }

  function SanitiseNodes(ns: Nodes, rest: Nodes): Nodes {
    match ns
    case End => rest
    case Sibling(n, next) => SanitiseNode(n, SanitiseNodes(next, rest))
  }

  /** Unwraps what is not allowed, filters image attributes, empties void elements and
      merges text. */
  function Sanitise(ns: Nodes): Nodes {
    SanitiseNodes(ns, End)
  }

  /** The forests Sanitise produces. */
  predicate CleanNode(n: Node) {
    match n
    case Text(data) => data != ""
    case Element(tag, attrs, children) =>
      if tag == "br" then attrs == [] && children == End
      else if tag == "img" then KeptAttrs(attrs) == attrs && children == End
      else tag in PLAIN_TAGS && attrs == [] && CleanNodes(children)
    case Other(_) => false
  }

  predicate CleanNodes(ns: Nodes) {
    match ns
    case End => true
    case Sibling(n, next) =>
      CleanNode(n) && CleanNodes(next) && !(n.Text? && next.Sibling? && next.node.Text?)
  }

  lemma {:induction false} SanitiseNodeClean(n: Node, rest: Nodes)
    requires CleanNodes(rest)
    ensures CleanNodes(SanitiseNode(n, rest))
  {
    match n {
      case Text(_) =>
      case Element(tag, attrs, children) =>
        if !Allowed(tag) {
          SanitiseNodesClean(children, rest);
        } else if tag == "img" {
          KeptAttrsStable(attrs);
        } else if tag != "br" {
          SanitiseNodesClean(children, End);
        }
      case Other(children) => SanitiseNodesClean(children, rest);
    }
  }

  lemma {:induction false} SanitiseNodesClean(ns: Nodes, rest: Nodes)
    requires CleanNodes(rest)
    ensures CleanNodes(SanitiseNodes(ns, rest))
  {
    match ns {
      case End =>
      case Sibling(n, next) =>
        SanitiseNodesClean(next, rest);
        SanitiseNodeClean(n, SanitiseNodes(next, rest));
    }
  }

  lemma {:induction false} CleanNodesStable(ns: Nodes)
    requires CleanNodes(ns)
    ensures SanitiseNodes(ns, End) == ns
  {
    match ns {
      case End =>
      case Sibling(n, next) =>
        CleanNodesStable(next);
        if n.Element? && n.tag in PLAIN_TAGS {
          CleanNodesStable(n.firstChild);
        }
    }
  }

  /** The filter lands in the clean forests and leaves exactly those alone, so it is
      idempotent. */
  lemma SanitiseIsIdempotent(ns: Nodes)
    ensures CleanNodes(Sanitise(ns))
    ensures Sanitise(Sanitise(ns)) == Sanitise(ns)
    ensures CleanNodes(ns) <==> Sanitise(ns) == ns
  {
    SanitiseNodesClean(ns, End);
    CleanNodesStable(Sanitise(ns));
    if CleanNodes(ns) {
      CleanNodesStable(ns);
    }
  }

  lemma PrintGlue(n: Node, rest: Nodes)
    requires n.Text?
    ensures PrintNodes(Glue(n, rest)) == PrintNode(n) + PrintNodes(rest)
  {
    if rest.Sibling? && rest.node.Text? {
      EscapeAppend(n.data, rest.node.data);
    }
  }

  lemma {:induction false} PrintSanitisedNode(n: Node, rest: Nodes)
    ensures PrintNodes(SanitiseNode(n, rest)) == PrintNode(n) + PrintNodes(rest)
  {
    match n {
      case Text(_) => PrintGlue(n, rest);
      case Element(tag, attrs, children) =>
        if !Allowed(tag) {
          PrintSanitisedNodes(children, rest);
        } else if tag == "img" {
          KeptAttrsStable(attrs);
        } else if tag != "br" {
          PrintSanitisedNodes(children, End);
        }
      case Other(children) => PrintSanitisedNodes(children, rest);
    }
  }

  lemma {:induction false} PrintSanitisedNodes(ns: Nodes, rest: Nodes)
    ensures PrintNodes(SanitiseNodes(ns, rest)) == PrintNodes(ns) + PrintNodes(rest)
  {
    match ns {
      case End =>
      case Sibling(n, next) =>
        PrintSanitisedNodes(next, rest);
        PrintSanitisedNode(n, SanitiseNodes(next, rest));
    }
  }

  /** Cleaning factors through the tree filter: printing a forest is printing its sanitised
      form. */
  lemma PrintFactorsThroughSanitise(ns: Nodes)
    ensures PrintNodes(Sanitise(ns)) == PrintNodes(ns)
  {
    PrintSanitisedNodes(ns, End);
  }

  // ---------- what is left in a clean forest ----------

  /** Only allowed elements, no attribute outside an image, and only good ones inside. */
  predicate OnlyAllowed(ns: Nodes) {
    match ns
    case End => true
    case Sibling(Text(_), next) => OnlyAllowed(next)
    case Sibling(Element(tag, attrs, children), next) =>
      && Allowed(tag) && (tag != "img" ==> attrs == []) && (forall a | a in attrs :: GoodAttr(a))
      && OnlyAllowed(children) && OnlyAllowed(next)
    case Sibling(Other(_), _) => false
  }

  lemma {:induction false} CleanIsAllowed(ns: Nodes)
    requires CleanNodes(ns)
    ensures OnlyAllowed(ns)
  {
    match ns {
      case End =>
      case Sibling(Text(_), next) => CleanIsAllowed(next);
      case Sibling(Element(tag, attrs, children), next) =>
        CleanIsAllowed(children);
        CleanIsAllowed(next);
        forall a | a in attrs
          ensures GoodAttr(a)
        {
          KeptIsGood(attrs, a);
        }
      case Sibling(Other(_), _) =>
    }
  }

  /** How many elements with the given tag a forest has, not counting inside void ones. */
  function TagCount(tag: string, ns: Nodes): nat {
    match ns
    case End => 0
    case Sibling(n, next) => TagCountNode(tag, n) + TagCount(tag, next)
  }

  function TagCountNode(tag: string, n: Node): nat {
    match n
    case Text(_) => 0
    case Element(t, _, children) =>
      (if t == tag then 1 else 0) + if t == "br" || t == "img" then 0 else TagCount(tag, children)
    case Other(children) => TagCount(tag, children)
  }

  predicate SurvivingTag(tag: string) {
    tag in {"b", "i", "u", "strong", "span", "div", "br", "img"}
  }

  lemma GlueKeepsTags(tag: string, n: Node, rest: Nodes)
    requires n.Text?
    ensures TagCount(tag, Glue(n, rest)) == TagCount(tag, rest)
  {
  }

  lemma WrapKeepsTags(tag: string, t: string, attrs: seq<Attr>, children: Nodes, rest: Nodes)
    ensures TagCount(tag, Sibling(Element(t, attrs, children), rest)) ==
            (if t == tag then 1 else 0) + (if t == "br" || t == "img" then 0 else TagCount(tag, children)) +
            TagCount(tag, rest)
  {
  }

  lemma {:induction false} SanitiseNodeKeepsTags(tag: string, n: Node, rest: Nodes)
    requires SurvivingTag(tag)
    ensures TagCount(tag, SanitiseNode(n, rest)) == TagCountNode(tag, n) + TagCount(tag, rest)
  {
    match n {
      case Text(_) => GlueKeepsTags(tag, n, rest);
      case Element(t, attrs, children) =>
        if !Allowed(t) {
          SanitiseNodesKeepTags(tag, children, rest);
        } else if t == "br" {
          WrapKeepsTags(tag, t, [], End, rest);
        } else if t == "img" {
          WrapKeepsTags(tag, t, KeptAttrs(attrs), End, rest);
        } else {
          var inside := SanitiseNodes(children, End);
          SanitiseNodesKeepTags(tag, children, End);
          WrapKeepsTags(tag, t, [], inside, rest);
        }
      case Other(children) => SanitiseNodesKeepTags(tag, children, rest);
    }
  }

  lemma {:induction false} SanitiseNodesKeepTags(tag: string, ns: Nodes, rest: Nodes)
    requires SurvivingTag(tag)
    ensures TagCount(tag, SanitiseNodes(ns, rest)) == TagCount(tag, ns) + TagCount(tag, rest)
  {
    match ns {
      case End =>
      case Sibling(n, next) =>
        SanitiseNodesKeepTags(tag, next, rest);
        SanitiseNodeKeepsTags(tag, n, SanitiseNodes(next, rest));
    }
  }

  lemma {:induction false} CleanHasNoOtherTags(tag: string, ns: Nodes)
    requires OnlyAllowed(ns) && !SurvivingTag(tag)
    ensures TagCount(tag, ns) == 0
  {
    match ns {
      case End =>
      case Sibling(Text(_), next) => CleanHasNoOtherTags(tag, next);
      case Sibling(Element(_, _, children), next) =>
        CleanHasNoOtherTags(tag, children);
        CleanHasNoOtherTags(tag, next);
      case Sibling(Other(_), _) =>
    }
  }

  // ---------- text preservation ----------

  /** Deletes every `<...>` span; an unclosed one runs to the end. */
  function DeleteSpans(s: string): string
    decreases |s|
  {
    if s == [] then []
    else if s[0] != '<' then [s[0]] + DeleteSpans(s[1..])
    else
      var body := Until(s[1..], '>');
      if |body| == |s| - 1 then [] else DeleteSpans(s[|body| + 2..])
  }

  lemma {:induction false} DeleteSpansText(a: string, rest: string)
    requires '<' !in a
    ensures DeleteSpans(a + rest) == a + DeleteSpans(rest)
  {
    if a == [] {
      assert a + rest == rest;
    } else {
      assert (a + rest)[1..] == a[1..] + rest && a[0] in a;
      DeleteSpansText(a[1..], rest);
    }
  }

  lemma DeleteSpansTag(body: string, rest: string)
    requires '>' !in body
    ensures DeleteSpans(Bracket(body) + rest) == DeleteSpans(rest)
  {
    var s := Bracket(body) + rest;
    assert s[1..] == body + (">" + rest);
    UntilStops(body, ">" + rest, '>');
    assert s[|body| + 2..] == rest;
  }

  predicate AttrKeys(attrs: seq<Attr>) {
    forall a | a in attrs :: a.key in IMAGE_ATTRS
  }

  lemma {:induction false} KeptKeys(attrs: seq<Attr>)
    ensures AttrKeys(KeptAttrs(attrs))
  {
    if attrs != [] {
      KeptKeys(attrs[1..]);
    }
  }

  lemma NamesAreInert(name: string)
    requires name in IMAGE_ATTRS || name in PLAIN_TAGS
    ensures '<' !in name && '>' !in name && '=' !in name && name != "" && name[0] != '/'
  {
  }

  lemma PrintAttrInert(a: Attr)
    requires a.key in IMAGE_ATTRS
    ensures '>' !in PrintAttr(a) && '<' !in PrintAttr(a)
  {
    NamesAreInert(a.key);
    EscapedIsInert(a.val);
  }

  lemma {:induction false} PrintAttrsInert(attrs: seq<Attr>)
    requires AttrKeys(attrs)
    ensures '>' !in PrintAttrs(attrs) && '<' !in PrintAttrs(attrs)
  {
    if attrs != [] {
      PrintAttrInert(attrs[0]);
      PrintAttrsInert(attrs[1..]);
    }
  }

  lemma ImageBodyInert(attrs: seq<Attr>)
    ensures '>' !in ImageBody(attrs) && '<' !in ImageBody(attrs)
  {
    KeptKeys(attrs);
    PrintAttrsInert(KeptAttrs(attrs));
  }

  /** Void elements carry no children, as the parser guarantees. */
  predicate VoidChildlessNode(n: Node) {
    match n
    case Text(_) => true
    case Element(tag, _, children) => (tag == "br" || tag == "img" ==> children == End) && VoidChildless(children)
    case Other(children) => VoidChildless(children)
  }

  predicate VoidChildless(ns: Nodes) {
    match ns
    case End => true
    case Sibling(n, next) => VoidChildlessNode(n) && VoidChildless(next)
  }

  lemma StripVoid(n: Node, rest: string)
    requires n.Element? && (n.tag == "br" || n.tag == "img") && n.firstChild == End
    ensures DeleteSpans(PrintNode(n) + rest) == DeleteSpans(rest)
  {
    ImageBodyInert(n.attrs);
    DeleteSpansTag(if n.tag == "br" then "br" else ImageBody(n.attrs), rest);
  }

  /** An opening tag, what is inside, a closing tag, and the rest. */
  lemma StripPair(tag: string, inside: string, text: string, rest: string)
    requires tag in PLAIN_TAGS
    requires DeleteSpans(inside + (Bracket("/" + tag) + rest)) == text + DeleteSpans(Bracket("/" + tag) + rest)
    ensures DeleteSpans(Bracket(tag) + (inside + Bracket("/" + tag)) + rest) == text + DeleteSpans(rest)
  {
    NamesAreInert(tag);
    var shut := Bracket("/" + tag);
    DeleteSpansTag("/" + tag, rest);
    DeleteSpansTag(tag, inside + (shut + rest));
    Assoc(inside, shut, rest);
    Assoc(Bracket(tag), inside + shut, rest);
  }

  lemma {:induction false} StripNode(n: Node, rest: string)
    requires VoidChildlessNode(n)
    ensures DeleteSpans(PrintNode(n) + rest) == Escape(PlainNode(n)) + DeleteSpans(rest)
    decreases n, 0
  {
    match n {
      case Text(data) =>
        EscapedIsInert(data);
        DeleteSpansText(Escape(data), rest);
      case Element(tag, attrs, children) =>
        if !Allowed(tag) {
          StripNodes(children, rest);
        } else if tag == "br" || tag == "img" {
          StripVoid(n, rest);
        } else {
          StripNodes(children, Bracket("/" + tag) + rest);
          StripPair(tag, PrintNodes(children), Escape(PlainNodes(children)), rest);
        }
      case Other(children) => StripNodes(children, rest);
    }
  }

  lemma {:induction false} StripNodes(ns: Nodes, rest: string)
    requires VoidChildless(ns)
    ensures DeleteSpans(PrintNodes(ns) + rest) == Escape(PlainNodes(ns)) + DeleteSpans(rest)
    decreases ns, 0
  {
    match ns {
      case End => assert PrintNodes(ns) + rest == rest;
      case Sibling(n, next) =>
        Assoc(PrintNode(n), PrintNodes(next), rest);
        StripNode(n, PrintNodes(next) + rest);
        StripNodes(next, rest);
        EscapeAppend(PlainNode(n), PlainNodes(next));
        Assoc(Escape(PlainNode(n)), Escape(PlainNodes(next)), DeleteSpans(rest));
    }
  }

  /** Cleaning preserves text: deleting every `<...>` span from the output leaves exactly the
      escaped plain text of the input forest. */
  lemma CleaningPreservesText(ns: Nodes)
    requires VoidChildless(ns)
    ensures DeleteSpans(PrintNodes(ns)) == Escape(PlainNodes(ns))
  {
    StripNodes(ns, "");
    assert PrintNodes(ns) + "" == PrintNodes(ns);
  }

  // ---------- every '<' opens an emitted tag ----------

  function CountLess(s: string): nat {
    if s == [] then 0 else (if s[0] == '<' then 1 else 0) + CountLess(s[1..])
  }

  lemma {:induction false} CountLessAppend(a: string, b: string)
    ensures CountLess(a + b) == CountLess(a) + CountLess(b)
  {
    if a == [] {
      assert a + b == b;
    } else {
      assert (a + b)[1..] == a[1..] + b;
      CountLessAppend(a[1..], b);
    }
  }

  lemma {:induction false} CountLessNone(s: string)
    requires '<' !in s
    ensures CountLess(s) == 0
  {
    if s != [] {
      assert s[0] in s;
      CountLessNone(s[1..]);
    }
  }

  /** Tags the writer emits: one for a void element, two for any other allowed element. */
  function EmittedTags(n: Node): nat {
    match n
    case Text(_) => 0
    case Element(tag, _, children) =>
      if !Allowed(tag) then EmittedTagsAll(children)
      else if tag == "br" || tag == "img" then 1
      else 2 + EmittedTagsAll(children)
    case Other(children) => EmittedTagsAll(children)
  }

  function EmittedTagsAll(ns: Nodes): nat {
    match ns
    case End => 0
    case Sibling(n, next) => EmittedTags(n) + EmittedTagsAll(next)
  }

  lemma CountLessTag(body: string)
    requires '<' !in body
    ensures CountLess(Bracket(body)) == 1
  {
    CountLessNone(body + ">");
    assert Bracket(body)[1..] == body + ">";
  }

  lemma LessPerVoid(n: Node)
    requires n.Element? && (n.tag == "br" || n.tag == "img")
    ensures CountLess(PrintNode(n)) == 1
  {
    ImageBodyInert(n.attrs);
    CountLessTag(if n.tag == "br" then "br" else ImageBody(n.attrs));
  }

  lemma LessPerPair(tag: string, inside: string)
    requires tag in PLAIN_TAGS
    ensures CountLess(Bracket(tag) + (inside + Bracket("/" + tag))) == 2 + CountLess(inside)
  {
    NamesAreInert(tag);
    CountLessTag(tag);
    CountLessTag("/" + tag);
    CountLessAppend(Bracket(tag), inside + Bracket("/" + tag));
    CountLessAppend(inside, Bracket("/" + tag));
  }

  lemma {:induction false} LessPerNode(n: Node)
    ensures CountLess(PrintNode(n)) == EmittedTags(n)
  {
    match n {
      case Text(data) =>
        EscapedIsInert(data);
        CountLessNone(Escape(data));
      case Element(tag, attrs, children) =>
        LessPerForest(children);
        if tag == "br" || tag == "img" {
          LessPerVoid(n);
        } else if Allowed(tag) {
          LessPerPair(tag, PrintNodes(children));
        }
      case Other(children) => LessPerForest(children);
    }
  }

  /** The output holds no `<` but those of the tags the writer emitted, whatever the text and
      the attribute values are. */
  lemma {:induction false} LessPerForest(ns: Nodes)
    ensures CountLess(PrintNodes(ns)) == EmittedTagsAll(ns)
  {
    match ns {
      case End =>
      case Sibling(n, next) =>
        LessPerNode(n);
        LessPerForest(next);
        CountLessAppend(PrintNode(n), PrintNodes(next));
    }
  }
}
