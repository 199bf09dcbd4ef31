/** The elements, attributes and texts that the items of a JSON document stand for. */
module JsonDocuments {
  import opened Sequences
  import opened RequestParser
  import Decimals
  import RecordedItems
  import RequestState

  datatype Xml = XmlText(text: string) | XmlAttribute(name: string, value: string) | XmlElement(name: string, content: seq<Xml>)

  // ---------------------------------------------------------------- what a document means

  /** A name that begins with a dash is one of an attribute. */
  predicate IsAttribute(name: string) {
    name != "" && name[0] == '-'
  }

  function ValueOf(name: Option<string>, value: string): Xml {
    match name
    case None => XmlText(value)
    case Some(n) =>
      if IsAttribute(n) then XmlAttribute(n[1..], value)
      else if n == "#text" then XmlText(value)
      else XmlElement(n, [XmlText(value)])
  }

  /** An array is an element for each of its elements, all with its name or else numbered from one on; an object is an
      element of its members, or just these if it has no name. */
  ghost function XmlOf(nd: Json): seq<Xml>
    decreases nd, 1
  {
    match nd.kind
    case JsonFalse => [ValueOf(nd.name, "false")]
    case JsonTrue => [ValueOf(nd.name, "true")]
    case JsonString(v) => [ValueOf(nd.name, v)]
    case JsonNumber(Some(v)) => [ValueOf(nd.name, v)]
    case JsonNull => if nd.name.Some? && (nd.name.value == "" || nd.name.value[0] !in "-#") then [XmlElement(nd.name.value, [])] else []
    case JsonObject(members) => if nd.name.Some? then [XmlElement(nd.name.value, XmlOfMembers(members))] else XmlOfMembers(members)
    case JsonArray(elems) => XmlOfElements(nd.name, elems)
    case _ => []
  }

  ghost function XmlOfMembers(nds: seq<Json>): seq<Xml>
    decreases nds, 0
  {
    if nds == [] then [] else XmlOfMembers(nds[..|nds| - 1]) + XmlOf(nds[|nds| - 1])
  }

  ghost function XmlOfElements(name: Option<string>, nds: seq<Json>): (r: seq<Xml>)
    ensures |r| == |nds|
    decreases nds, 0
  {
    if nds == [] then []
    else
      var tag := if name.Some? then name.value else Decimals.Digits(|nds|);
      XmlOfElements(name, nds[..|nds| - 1]) + [XmlElement(tag, XmlOf(nds[|nds| - 1]))]
  }

  /** The number of an element without a name is read from its tag. */
  lemma {:induction false} ElementTag(name: Option<string>, nds: seq<Json>, i: nat)
    requires i < |nds|
    ensures var x := XmlOfElements(name, nds)[i];
            && x.XmlElement? && x.content == XmlOf(nds[i])
            && if name.Some? then x.name == name.value else Decimals.Denotes(x.name, i + 1)
    decreases nds
  {
    var n := |nds| - 1;
    if i < n {
      ElementTag(name, nds[..n], i);
    } else {
      Decimals.ReadWritten(|nds|);
    }
  }

  // ---------------------------------------------------------------- reading items

  /** Texts, attributes and elements up to the end or a closing tag, and what follows. */
  function ReadItems(items: seq<Item>): (r: Option<(seq<Xml>, seq<Item>)>)
    ensures r.Some? ==> |r.value.1| <= |items| && (r.value.1 == [] || r.value.1[0].ItemCloseTag?)
    decreases |items|
  {
    if items == [] || items[0].ItemCloseTag? then Some(([], items))
    else
      match items[0]
      case ItemContent(text) => Before([XmlText(text)], ReadItems(items[1..]))
      case TagAttribName(name) =>
        if |items| > 1 && items[1].TagAttribValue? then Before([XmlAttribute(name, items[1].value)], ReadItems(items[2..])) else None
      case ItemOpenTag(name) =>
        var inner := ReadItems(items[1..]);
        if inner.None? || inner.value.1 == [] then None
        else Before([XmlElement(name, inner.value.0)], ReadItems(inner.value.1[1..]))
      case _ => None
  }

  function Before(xs: seq<Xml>, r: Option<(seq<Xml>, seq<Item>)>): Option<(seq<Xml>, seq<Item>)> {
    if r.Some? then Some((xs + r.value.0, r.value.1)) else None
  }

  lemma {:induction false} BeforeTwice(a: seq<Xml>, b: seq<Xml>, r: Option<(seq<Xml>, seq<Item>)>)
    ensures Before(a, Before(b, r)) == Before(a + b, r)
    ensures Before([], r) == r
  {
    if r.Some? { assert a + (b + r.value.0) == a + b + r.value.0 && [] + r.value.0 == r.value.0; }
  }

  lemma {:induction false} ReadText(text: string, rest: seq<Item>)
    ensures ReadItems([ItemContent(text)] + rest) == Before([XmlText(text)], ReadItems(rest))
  {
    assert ([ItemContent(text)] + rest)[1..] == rest;
  }

  lemma {:induction false} ReadClose(rest: seq<Item>)
    ensures ReadItems([ItemCloseTag] + rest) == Some(([], [ItemCloseTag] + rest))
  {
  }

  /** The items between two tags are the content of the element. */
  lemma {:induction false} ReadEnclosed(tag: string, items: seq<Item>, xs: seq<Xml>, rest: seq<Item>)
    requires ReadItems(items + ([ItemCloseTag] + rest)) == Before(xs, ReadItems([ItemCloseTag] + rest))
    ensures ReadItems(Enclosed(tag, items) + rest) == Before([XmlElement(tag, xs)], ReadItems(rest))
  {
    var all, close := Enclosed(tag, items) + rest, [ItemCloseTag] + rest;
    ReadClose(rest);
    assert xs + [] == xs && close[1..] == rest;
    assert all[1..] == items + close && all[0] == ItemOpenTag(tag);
  }

  lemma {:induction false} ReadValue(name: Option<string>, value: string, rest: seq<Item>)
    ensures ReadItems(ValueItems(name, value) + rest) == Before([ValueOf(name, value)], ReadItems(rest))
  {
    var items := ValueItems(name, value);
    if name.None? || name.value == "#text" {
      ReadText(value, rest);
    } else if IsAttribute(name.value) {
      assert (items + rest)[2..] == rest && (items + rest)[1] == TagAttribValue(value);
    } else {
      assert items == Enclosed(name.value, [ItemContent(value)]);
      ReadText(value, [ItemCloseTag] + rest);
      ReadEnclosed(name.value, [ItemContent(value)], [XmlText(value)], rest);
    }
  }

  lemma {:induction false} ReadNode(nd: Json, rest: seq<Item>)
    ensures ReadItems(ItemsOf(nd) + rest) == Before(XmlOf(nd), ReadItems(rest))
    decreases nd, 1
  {
    hide ReadItems;
    BeforeTwice([], [], ReadItems(rest));
    assert [] + rest == rest;
    match nd.kind
    case JsonFalse => ReadValue(nd.name, "false", rest);
    case JsonTrue => ReadValue(nd.name, "true", rest);
    case JsonString(v) => ReadValue(nd.name, v, rest);
    case JsonNumber(num) => if num.Some? { ReadValue(nd.name, num.value, rest); }
    case JsonNull => ReadNull(nd.name, rest);
    case JsonArray(elems) => ReadElements(nd.name, elems, rest);
    case JsonObject(members) =>
      if nd.name.Some? {
        ReadMembers(members, [ItemCloseTag] + rest);
        ReadEnclosed(nd.name.value, MemberItems(members), XmlOfMembers(members), rest);
      } else {
        ReadMembers(members, rest);
      }
    case JsonUnknown =>
  }

  lemma {:induction false} ReadNull(name: Option<string>, rest: seq<Item>)
    ensures ReadItems(ItemsOf(Json(name, JsonNull)) + rest) == Before(XmlOf(Json(name, JsonNull)), ReadItems(rest))
  {
    hide ReadItems;
    BeforeTwice([], [], ReadItems(rest));
    assert [] + rest == rest && [] + ([ItemCloseTag] + rest) == [ItemCloseTag] + rest;
    if name.Some? {
      BeforeTwice([], [], ReadItems([ItemCloseTag] + rest));
      ReadEnclosed(name.value, [], [], rest);
    }
  }

  lemma {:induction false} ReadMembers(nds: seq<Json>, rest: seq<Item>)
    ensures ReadItems(MemberItems(nds) + rest) == Before(XmlOfMembers(nds), ReadItems(rest))
    decreases nds, 0
  {
    hide ReadItems, ItemsOf, XmlOf;
    if nds == [] {
      BeforeTwice([], [], ReadItems(rest));
      assert [] + rest == rest;
    } else {
      var init, last := nds[..|nds| - 1], nds[|nds| - 1];
      ReadNode(last, rest);
      ReadMembers(init, ItemsOf(last) + rest);
      BeforeTwice(XmlOfMembers(init), XmlOf(last), ReadItems(rest));
      assert MemberItems(nds) + rest == MemberItems(init) + (ItemsOf(last) + rest);
    }
  }

  lemma {:induction false} ReadElements(name: Option<string>, nds: seq<Json>, rest: seq<Item>)
    ensures ReadItems(ElementItems(name, nds) + rest) == Before(XmlOfElements(name, nds), ReadItems(rest))
    decreases nds, 0
  {
    hide ReadItems, ItemsOf, XmlOf;
    if nds == [] {
      BeforeTwice([], [], ReadItems(rest));
      assert [] + rest == rest;
    } else {
      var init, last := nds[..|nds| - 1], nds[|nds| - 1];
      var tag := if name.Some? then name.value else Decimals.Digits(|nds|);
      ReadNode(last, [ItemCloseTag] + rest);
      ReadEnclosed(tag, ItemsOf(last), XmlOf(last), rest);
      ReadElements(name, init, Enclosed(tag, ItemsOf(last)) + rest);
      BeforeTwice(XmlOfElements(name, init), [XmlElement(tag, XmlOf(last))], ReadItems(rest));
      assert ElementItems(name, nds) + rest == ElementItems(name, init) + (Enclosed(tag, ItemsOf(last)) + rest);
    }
  }

  /** The items of a document can be read, and are its names and values. */
  lemma {:induction false} ItemsMean(nd: Json)
    ensures ReadItems(ItemsOf(nd)) == Some((XmlOf(nd), []))
  {
    ReadNode(nd, []);
    assert ItemsOf(nd) + [] == ItemsOf(nd);
    assert XmlOf(nd) + [] == XmlOf(nd);
  }

  // ---------------------------------------------------------------- which documents are accepted

  function Larger(a: nat, b: nat): nat {
    if a < b then b else a
  }

  /** How deep arrays and objects are nested. */
  function Height(nd: Json): nat
    decreases nd, 1
  {
    match nd.kind
    case JsonArray(elems) => Heights(elems)
    case JsonObject(members) => Heights(members)
    case _ => 0
  }

  function Heights(nds: seq<Json>): nat
    decreases nds, 0
  {
    if nds == [] then 0 else Larger(1 + Height(nds[0]), Heights(nds[1..]))
  }

  /** All numbers have a text and all nodes a known type. */
  predicate Sound(nd: Json)
    decreases nd, 1
  {
    match nd.kind
    case JsonUnknown => false
    case JsonNumber(num) => num.Some?
    case JsonArray(elems) => AllSound(elems)
    case JsonObject(members) => AllSound(members)
    case _ => true
  }

  predicate AllSound(nds: seq<Json>)
    decreases nds, 0
  {
    nds == [] || (Sound(nds[0]) && AllSound(nds[1..]))
  }

  /** The items of a document are made exactly if it is sound and its arrays and objects are nested at most 200 deep. */
  lemma {:induction false} AcceptedIff(nd: Json, depth: nat)
    ensures Accepted(nd, depth) <==> depth + Height(nd) <= 200 && Sound(nd)
    decreases nd, 1
  {
    if depth <= 200 {
      match nd.kind
      case JsonArray(elems) => AllAcceptedIff(elems, depth);
      case JsonObject(members) => AllAcceptedIff(members, depth);
      case _ =>
    }
  }

  lemma {:induction false} AllAcceptedIff(nds: seq<Json>, depth: nat)
    requires depth <= 200
    ensures AllAccepted(nds, depth + 1) <==> depth + Heights(nds) <= 200 && AllSound(nds)
    decreases nds, 0
  {
    if nds != [] {
      AcceptedIff(nds[0], depth + 1);
      AllAcceptedIff(nds[1..], depth);
      assert AllAccepted(nds, depth + 1) <==> Accepted(nds[0], depth + 1) && AllAccepted(nds[1..], depth + 1) by {
        assert nds == [nds[0]] + nds[1..];
      }
    }
  }

  // ---------------------------------------------------------------- from items to events

  /** The event fed for an item is of its kind, and what it triggers sees the text of the item. */
  lemma {:induction false} InputOfItem(items: seq<Item>, triggered: seq<seq<RequestState.AtmEvent>>, i: nat)
    requires |triggered| == |items| + 1 && i <= |items|
    ensures var input := AllInputs(items, triggered)[i];
            && input.evs == triggered[i]
            && if i == |items| then input.CloseTag?
               else && (input.OpenTag? <==> items[i].ItemOpenTag?) && (input.CloseTag? <==> items[i].ItemCloseTag?)
                    && (input.AttributeName? <==> items[i].TagAttribName?) && (input.AttributeValue? <==> items[i].TagAttribValue?)
                    && RecordedItems.ValueSeen(input) == if items[i].ItemCloseTag? then None else Some(items[i].value)
  {
  }
}
