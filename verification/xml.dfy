/** The slice of Python's `xml.etree.ElementTree` the SOAP code relies on:
    element trees, Clark-notation tags, `iter`, `find` with a plain tag and
    with a `.//tag` path, `len(e)` and attribute lookup.  Reading and
    writing XML text is not modelled. */
module Xml {
  import opened Wrappers
  import Assoc

  /** An ElementTree element.  The tag is a string in Clark notation:
      `{uri}local` for a namespaced name, the bare local name otherwise.
      Attributes are in insertion order; `text` is None when never set.
      Tail text is not modelled. */
  datatype Element = Element(tag: string, attrs: seq<(string, string)>, text: Option<string>, children: seq<Element>)

  /** `QName(uri, local).text`: the Clark-notation tag of a namespaced name. */
  function Clark(uri: string, local: string): string {
    "{" + uri + "}" + local
  }

  /** The text before the first `}` of `s` and the text after it. */
  function SplitAtBrace(s: string): (r: Option<(string, string)>)
    ensures r.Some? ==> s == r.value.0 + "}" + r.value.1 && '}' !in r.value.0
    ensures r.None? ==> '}' !in s
  {
    if |s| == 0 then None
    else if s[0] == '}' then Some(("", s[1..]))
    else
      match SplitAtBrace(s[1..])
      case None => None
      case Some((a, b)) => Some(([s[0]] + a, b))
  }

  /** How ElementTree reads a tag: a namespace URI (if the tag opens with
      `{`) and a local name. */
  function SplitTag(tag: string): (Option<string>, string) {
    if |tag| > 0 && tag[0] == '{' then
      match SplitAtBrace(tag[1..])
      case Some((uri, local)) => (Some(uri), local)
      case None => (None, tag)
    else (None, tag)
  }

  lemma {:induction false} SplitAtBraceClark(uri: string, local: string)
    requires '}' !in uri
    ensures SplitAtBrace(uri + "}" + local) == Some((uri, local))
  {
    var s := uri + "}" + local;
    if |uri| > 0 {
      assert s[1..] == uri[1..] + "}" + local;
      SplitAtBraceClark(uri[1..], local);
      assert [uri[0]] + uri[1..] == uri;
    } else {
      assert s[1..] == local;
    }
  }

  /** A Clark-notation tag names exactly its namespace and local name, for
      any namespace URI without a `}` in it. */
  lemma ClarkRoundTrip(uri: string, local: string)
    requires '}' !in uri
    ensures SplitTag(Clark(uri, local)) == (Some(uri), local)
  {
    var t := Clark(uri, local);
    assert t[1..] == uri + "}" + local;
    SplitAtBraceClark(uri, local);
  }

  /** Within one namespace, two tags are equal exactly when their local
      names are. */
  lemma ClarkSameUri(uri: string, a: string, b: string)
    ensures Clark(uri, a) == Clark(uri, b) <==> a == b
  {
    if Clark(uri, a) == Clark(uri, b) {
      assert Clark(uri, a)[|uri| + 2..] == a;
      assert Clark(uri, b)[|uri| + 2..] == b;
    }
  }

  /** `list(e.iter())`: the element followed by all its descendants, in
      document order. */
  function Iter(e: Element): (r: seq<Element>)
    ensures |r| >= 1 && r[0] == e
    decreases e, 1
  {
    [e] + IterAll(e.children)
  }

  /** The `Iter` of each element, concatenated. */
  function IterAll(es: seq<Element>): seq<Element>
    decreases es, 0
  {
    if |es| == 0 then [] else Iter(es[0]) + IterAll(es[1..])
  }

  lemma {:induction false} IterAllAppend(a: seq<Element>, b: seq<Element>)
    ensures IterAll(a + b) == IterAll(a) + IterAll(b)
  {
    if |a| > 0 {
      assert (a + b)[0] == a[0];
      assert (a + b)[1..] == a[1..] + b;
      IterAllAppend(a[1..], b);
    } else {
      assert a + b == b;
    }
  }

  /** The proper descendants of an element in document order: what a
      `.//` path searches. */
  function Descendants(e: Element): seq<Element> {
    IterAll(e.children)
  }

  /** The first element of `es` whose tag is `tag`. */
  function FirstWithTag(es: seq<Element>, tag: string): (r: Option<Element>)
    ensures r.None? <==> forall i :: 0 <= i < |es| ==> es[i].tag != tag
    ensures r.Some? ==> exists i :: 0 <= i < |es| && es[i] == r.value && es[i].tag == tag
                                   && forall j :: 0 <= j < i ==> es[j].tag != tag
  {
    if |es| == 0 then None
    else if es[0].tag == tag then Some(es[0])
    else
      var r := FirstWithTag(es[1..], tag);
      assert r.None? <==> forall i :: 0 <= i < |es| ==> es[i].tag != tag by {
        if r.Some? {
          var i :| 0 <= i < |es[1..]| && es[1..][i] == r.value && es[1..][i].tag == tag;
          assert es[i + 1].tag == tag;
        } else {
          forall i | 0 <= i < |es| ensures es[i].tag != tag {
            if i > 0 { assert es[i] == es[1..][i - 1]; }
          }
        }
      }
      assert r.Some? ==> exists i :: 0 <= i < |es| && es[i] == r.value && es[i].tag == tag
                                    && forall j :: 0 <= j < i ==> es[j].tag != tag by {
        if r.Some? {
          var i :| 0 <= i < |es[1..]| && es[1..][i] == r.value && es[1..][i].tag == tag
                   && forall j :: 0 <= j < i ==> es[1..][j].tag != tag;
          assert es[i + 1] == r.value;
          forall j | 0 <= j < i + 1 ensures es[j].tag != tag {
            if j > 0 { assert es[j] == es[1..][j - 1]; }
          }
        }
      }
      r
  }

  /** The match at index `i` is the first one when nothing before it
      matches. */
  lemma FirstWithTagAt(es: seq<Element>, tag: string, i: nat)
    requires i < |es| && es[i].tag == tag
    requires forall j :: 0 <= j < i ==> es[j].tag != tag
    ensures FirstWithTag(es, tag) == Some(es[i])
  {
    var r := FirstWithTag(es, tag);
    var k :| 0 <= k < |es| && es[k] == r.value && es[k].tag == tag
             && forall j :: 0 <= j < k ==> es[j].tag != tag;
    assert k == i;
  }

  /** A prefix without the tag does not change the first match. */
  lemma FirstWithTagSkip(a: seq<Element>, b: seq<Element>, tag: string)
    requires forall i :: 0 <= i < |a| ==> a[i].tag != tag
    ensures FirstWithTag(a + b, tag) == FirstWithTag(b, tag)
  {
    var r := FirstWithTag(b, tag);
    if r.Some? {
      var k :| 0 <= k < |b| && b[k] == r.value && b[k].tag == tag
               && forall j :: 0 <= j < k ==> b[j].tag != tag;
      assert (a + b)[|a| + k] == b[k];
      forall j | 0 <= j < |a| + k ensures (a + b)[j].tag != tag {
        if j >= |a| { assert (a + b)[j] == b[j - |a|]; }
      }
      FirstWithTagAt(a + b, tag, |a| + k);
    } else {
      forall j | 0 <= j < |a + b| ensures (a + b)[j].tag != tag {
        if j >= |a| { assert (a + b)[j] == b[j - |a|]; }
      }
    }
  }

  /** `e.find(tag)`: the first child with this exact tag. */
  function Find(e: Element, tag: string): (r: Option<Element>)
    ensures r.Some? ==> r.value in e.children && r.value.tag == tag
    ensures r.Some? ==> exists i :: 0 <= i < |e.children| && e.children[i] == r.value
                                   && forall j :: 0 <= j < i ==> e.children[j].tag != tag
    ensures r.None? <==> forall c | c in e.children :: c.tag != tag
  {
    var r := FirstWithTag(e.children, tag);
    assert r.None? <==> forall c | c in e.children :: c.tag != tag by {
      if r.Some? {
        var k :| 0 <= k < |e.children| && e.children[k] == r.value && e.children[k].tag == tag;
      }
    }
    r
  }

  /** `e.find(".//" + tag)`: the first proper descendant with this exact
      tag, in document order.  The element itself is never a match. */
  function FindDescendant(e: Element, tag: string): Option<Element> {
    FirstWithTag(Descendants(e), tag)
  }

  /** `find` applied to the result of an earlier `find`. */
  function FindIn(o: Option<Element>, tag: string): Option<Element> {
    if o.None? then None else Find(o.value, tag)
  }

  /** `e.get(name)`: the value of an attribute. */
  function Attr(e: Element, name: string): Option<string> {
    Assoc.Lookup(e.attrs, name)
  }

  /** `e.get(name)` on the result of a `find`. */
  function AttrIn(o: Option<Element>, name: string): Option<string> {
    if o.None? then None else Attr(o.value, name)
  }

  /** The first descendant of an element whose children open with some
      elements free of the tag, followed by an element with the tag, is
      that element: what comes after it, and what is inside it, does not
      matter. */
  lemma FindDescendantAfter(e: Element, before: seq<Element>, target: Element, after: seq<Element>, tag: string)
    requires e.children == before + [target] + after
    requires target.tag == tag
    requires forall i :: 0 <= i < |IterAll(before)| ==> IterAll(before)[i].tag != tag
    ensures FindDescendant(e, tag) == Some(target)
  {
    IterAllAppend(before + [target], after);
    IterAllAppend(before, [target]);
    assert IterAll([target]) == Iter(target) + IterAll([]);
    var d := Descendants(e);
    assert d == IterAll(before) + (Iter(target) + IterAll(after));
    FirstWithTagSkip(IterAll(before), Iter(target) + IterAll(after), tag);
    FirstWithTagAt(Iter(target) + IterAll(after), tag, 0);
  }
}
