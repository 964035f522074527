/** Listings: src/parser/parser_xml.c turns SAX calls into events, and the state machine of
    src/parser/parser_filelist.c turns events into directory entries. */
module FilelistParsers {
  import opened Decimals
  import opened Wrappers

  const FILELIST_NODE_ID := "fs2-filelist"
  const NAME_KEY := "fs2-name"
  const HASH_KEY := "fs2-hash"
  const TYPE_KEY := "fs2-type"
  const SIZE_KEY := "fs2-size"
  const LINKCOUNT_KEY := "fs2-linkcount"
  const ALTERNATIVESCOUNT_KEY := "fs2-alternativescount"
  const HREF_KEY := "href"
  const CLIENTALIAS_KEY := "fs2-clientalias"

  datatype Event =
    | TagStart(name: string, id: Option<string>)
    | Attribute(name: string, value: string)
    | TagEnd(name: string)
    | Text(chars: string)

  // ---------- The state machine ----------

  datatype State = WaitingForDiv | WaitingForA | ConsumingA

  // The parser's attribute fields; None is NULL.
  datatype Fields = Fields(name: Option<string>, hash: Option<string>, kind: Option<string>, size: int, linkCount: int,
                           href: Option<string>, client: Option<string>)

  const Blank := Fields(None, None, None, 0, 0, None, None)

  // `found` are the arguments of the callbacks made so far.
  datatype Machine = Machine(state: State, fields: Fields, found: seq<Fields>)

  const Start := Machine(WaitingForDiv, Blank, [])

  type Attr = (string, string)

  datatype Key = NameKey | HashKey | TypeKey | SizeKey | LinkCountKey | HrefKey | ClientKey | OtherKey

  function KeyOf(name: string): Key {
    if name == NAME_KEY then NameKey
    else if name == HASH_KEY then HashKey
    else if name == TYPE_KEY then TypeKey
    else if name == SIZE_KEY then SizeKey
    else if name == LINKCOUNT_KEY || name == ALTERNATIVESCOUNT_KEY then LinkCountKey
    else if name == HREF_KEY then HrefKey
    else if name == CLIENTALIAS_KEY then ClientKey
    else OtherKey
  }

  function Apply(f: Fields, name: string, value: string): Fields {
    match KeyOf(name)
    case NameKey => f.(name := Some(value))
    case HashKey => f.(hash := Some(value))
    case TypeKey => f.(kind := Some(value))
    case SizeKey => f.(size := Atoll(value))
    case LinkCountKey => f.(linkCount := Atoll(value))
    case HrefKey => f.(href := Some(value))
    case ClientKey => f.(client := Some(value))
    case OtherKey => f
  }

  function Step(m: Machine, e: Event): Machine {
    match m.state
    case WaitingForDiv => if e == TagStart("div", Some(FILELIST_NODE_ID)) then m.(state := WaitingForA) else m
    case WaitingForA => if e.TagStart? && e.name == "a" then m.(state := ConsumingA) else m
    case ConsumingA =>
      if e.Attribute? then m.(fields := Apply(m.fields, e.name, e.value))
      else if e == TagEnd("a") then m.(state := WaitingForA, found := m.found + [m.fields])
      else m
  }

  function Run(m: Machine, es: seq<Event>): Machine
    decreases |es|
  {
    if es == [] then m else Run(Step(m, es[0]), es[1..])
  }

  lemma {:induction false} RunConcat(m: Machine, es: seq<Event>, fs: seq<Event>)
    ensures Run(m, es + fs) == Run(Run(m, es), fs)
    decreases |es|
  {
    if es == [] {
      assert es + fs == fs;
    } else {
      assert (es + fs)[1..] == es[1..] + fs;
      RunConcat(Step(m, es[0]), es[1..], fs);
    }
  }

  // ---------- Elements and the events they raise ----------

  /** A piece of a document.  `following` is what the SAX buffer holds after the text: the source
      looks past the end of the text when it asks whether it is all white space. */
  datatype Xml =
    | Element(name: string, attrs: seq<Attr>, kids: seq<Xml>)
    | Chars(text: string, following: string)

  // The last id attribute, if there is one.
  function IdOf(attrs: seq<Attr>): Option<string>
    decreases |attrs|
  {
    if attrs == [] then None
    else
      var last := attrs[|attrs| - 1];
      if last.0 == "id" then Some(last.1) else IdOf(attrs[..|attrs| - 1])
  }

  // The id goes with the tag.
  function OwnEvent(attr: Attr): seq<Event> {
    if attr.0 == "id" then [] else [Attribute(attr.0, attr.1)]
  }

  function AttrEvents(attrs: seq<Attr>): seq<Event>
    decreases |attrs|
  {
    if attrs == [] then []
    else OwnEvent(attrs[0]) + AttrEvents(attrs[1..])
  }

  function StartEvents(name: string, attrs: seq<Attr>): seq<Event> {
    [TagStart(name, IdOf(attrs))] + AttrEvents(attrs)
  }

  predicate IsBlank(c: char) { c in " \t\n\r" }

  // strspn(s, " \t\n\r")
  function Span(s: string): nat
    decreases |s|
  {
    if s != "" && IsBlank(s[0]) then 1 + Span(s[1..]) else 0
  }

  function CharEvents(text: string, following: string): seq<Event> {
    if Span(text + following) != |text| then [Text(text)] else []
  }

  function Flatten(x: Xml): seq<Event>
    decreases x, 0
  {
    match x
    case Element(name, attrs, kids) => StartEvents(name, attrs) + FlattenAll(kids) + [TagEnd(name)]
    case Chars(text, following) => CharEvents(text, following)
  }

  function FlattenAll(xs: seq<Xml>): seq<Event>
    decreases xs, 1
  {
    if xs == [] then [] else Flatten(xs[0]) + FlattenAll(xs[1..])
  }

  // ---------- What a listing means ----------

  // The anchors of a piece of document, at any depth, in document order.
  function Anchors(x: Xml): seq<Xml>
    decreases x, 0
  {
    match x
    case Element(name, attrs, kids) => if name == "a" then [x] else AnchorsOfAll(kids)
    case Chars(_, _) => []
  }

  function AnchorsOfAll(xs: seq<Xml>): seq<Xml>
    decreases xs, 1
  {
    if xs == [] then [] else Anchors(xs[0]) + AnchorsOfAll(xs[1..])
  }

  // Text and elements inside an anchor that do not disturb it.
  predicate Quiet(x: Xml)
    decreases x, 0
  {
    x.Element? ==> x.name != "a" && (forall i :: 0 <= i < |x.attrs| ==> KeyOf(x.attrs[i].0).OtherKey?) && QuietAll(x.kids)
  }

  predicate QuietAll(xs: seq<Xml>)
    decreases xs, 1
  {
    xs == [] || (Quiet(xs[0]) && QuietAll(xs[1..]))
  }

  predicate QuietAnchors(anchors: seq<Xml>) {
    forall i :: 0 <= i < |anchors| ==> anchors[i].Element? && QuietAll(anchors[i].kids)
  }

  function ApplyAll(f: Fields, attrs: seq<Attr>): Fields
    decreases |attrs|
  {
    if attrs == [] then f else ApplyAll(Apply(f, attrs[0].0, attrs[0].1), attrs[1..])
  }

  // One entry an anchor; what an anchor does not say, it inherits from the one before.
  function Listing(f: Fields, anchors: seq<Xml>): (seq<Fields>, Fields)
    requires forall i :: 0 <= i < |anchors| ==> anchors[i].Element?
    decreases |anchors|
  {
    if anchors == [] then ([], f)
    else
      var f' := ApplyAll(f, anchors[0].attrs);
      var (rest, last) := Listing(f', anchors[1..]);
      ([f'] + rest, last)
  }

  // ---------- The machine computes that meaning ----------

  lemma IdIsOther(f: Fields, value: string)
    ensures Apply(f, "id", value) == f
  {}

  lemma {:induction false} AttrsInAnchor(m: Machine, attrs: seq<Attr>)
    requires m.state.ConsumingA?
    ensures Run(m, AttrEvents(attrs)) == m.(fields := ApplyAll(m.fields, attrs))
    decreases |attrs|
  {
    hide Apply;
    if attrs != [] {
      var (key, value) := attrs[0];
      var m' := m.(fields := Apply(m.fields, key, value));
      AttrsInAnchor(m', attrs[1..]);
      if key == "id" {
        assert AttrEvents(attrs) == AttrEvents(attrs[1..]);
        IdIsOther(m.fields, value);
      } else {
        RunConcat(m, [Attribute(key, value)], AttrEvents(attrs[1..]));
        assert Run(m, [Attribute(key, value)]) == m';
      }
    }
  }

  lemma {:induction false} AttrsElsewhere(m: Machine, attrs: seq<Attr>)
    requires !m.state.ConsumingA?
    ensures Run(m, AttrEvents(attrs)) == m
    decreases |attrs|
  {
    if attrs != [] {
      AttrsElsewhere(m, attrs[1..]);
      if attrs[0].0 == "id" {
        assert AttrEvents(attrs) == AttrEvents(attrs[1..]);
      } else {
        RunConcat(m, [Attribute(attrs[0].0, attrs[0].1)], AttrEvents(attrs[1..]));
      }
    }
  }

  lemma {:induction false} OtherAttrs(f: Fields, attrs: seq<Attr>)
    requires forall i :: 0 <= i < |attrs| ==> KeyOf(attrs[i].0).OtherKey?
    ensures ApplyAll(f, attrs) == f
    decreases |attrs|
  {
    if attrs != [] {
      OtherAttrs(f, attrs[1..]);
    }
  }

  lemma RunElement(m: Machine, x: Xml)
    requires x.Element?
    ensures Run(m, Flatten(x))
         == Step(Run(Run(Step(m, TagStart(x.name, IdOf(x.attrs))), AttrEvents(x.attrs)), FlattenAll(x.kids)), TagEnd(x.name))
  {
    RunConcat(m, StartEvents(x.name, x.attrs) + FlattenAll(x.kids), [TagEnd(x.name)]);
    RunConcat(m, StartEvents(x.name, x.attrs), FlattenAll(x.kids));
    RunConcat(m, [TagStart(x.name, IdOf(x.attrs))], AttrEvents(x.attrs));
    RunOne(m, TagStart(x.name, IdOf(x.attrs)));
    RunOne(Run(Run(m, StartEvents(x.name, x.attrs)), FlattenAll(x.kids)), TagEnd(x.name));
  }

  lemma RunOne(m: Machine, e: Event)
    ensures Run(m, [e]) == Step(m, e)
  {
    assert [e][1..] == [];
  }

  lemma RunNone(m: Machine)
    ensures Run(m, FlattenAll([])) == m
  {}

  lemma TextIsIgnored(m: Machine, text: string, following: string)
    ensures Run(m, CharEvents(text, following)) == m
  {
    RunOne(m, Text(text));
  }

  lemma {:induction false} QuietInAnchor(m: Machine, x: Xml)
    requires m.state.ConsumingA? && Quiet(x)
    ensures Run(m, Flatten(x)) == m
    decreases x, 0
  {
    hide Run, AttrEvents, FlattenAll, ApplyAll, IdOf, KeyOf, Apply, CharEvents;
    match x
    case Element(name, attrs, kids) =>
      RunElement(m, x);
      AttrsInAnchor(m, attrs);
      OtherAttrs(m.fields, attrs);
      QuietAllInAnchor(m, kids);
    case Chars(text, following) =>
      TextIsIgnored(m, text, following);
  }

  lemma {:induction false} QuietAllInAnchor(m: Machine, xs: seq<Xml>)
    requires m.state.ConsumingA? && QuietAll(xs)
    ensures Run(m, FlattenAll(xs)) == m
    decreases xs, 1
  {
    if xs != [] {
      RunConcat(m, Flatten(xs[0]), FlattenAll(xs[1..]));
      QuietInAnchor(m, xs[0]);
      QuietAllInAnchor(m, xs[1..]);
    }
  }

  lemma {:induction false} AnchorsAreElements(x: Xml)
    ensures forall i :: 0 <= i < |Anchors(x)| ==> Anchors(x)[i].Element?
    decreases x, 0
  {
    if x.Element? && x.name != "a" {
      AnchorsOfAllAreElements(x.kids);
    }
  }

  lemma {:induction false} AnchorsOfAllAreElements(xs: seq<Xml>)
    ensures forall i :: 0 <= i < |AnchorsOfAll(xs)| ==> AnchorsOfAll(xs)[i].Element?
    decreases xs, 1
  {
    if xs != [] {
      AnchorsAreElements(xs[0]);
      AnchorsOfAllAreElements(xs[1..]);
    }
  }

  lemma {:induction false} ListingConcat(f: Fields, a: seq<Xml>, b: seq<Xml>)
    requires QuietAnchors(a) && QuietAnchors(b)
    ensures Listing(f, a + b) == (Listing(f, a).0 + Listing(Listing(f, a).1, b).0, Listing(Listing(f, a).1, b).1)
    decreases |a|
  {
    if a == [] {
      assert a + b == b;
      assert [] + Listing(f, b).0 == Listing(f, b).0;
    } else {
      assert (a + b)[0] == a[0] && (a + b)[1..] == a[1..] + b;
      var f' := ApplyAll(f, a[0].attrs);
      ListingConcat(f', a[1..], b);
      var early, late := Listing(f', a[1..]).0, Listing(Listing(f, a).1, b).0;
      assert [f'] + (early + late) == [f'] + early + late;
    }
  }

  ghost predicate Reports(m: Machine, m': Machine, anchors: seq<Xml>)
    requires QuietAnchors(anchors)
  {
    && m'.state.WaitingForA?
    && m'.found == m.found + Listing(m.fields, anchors).0
    && m'.fields == Listing(m.fields, anchors).1
  }

  lemma {:induction false} ReportsOne(m: Machine, x: Xml)
    requires m.state.WaitingForA? && QuietAnchors(Anchors(x))
    ensures Reports(m, Run(m, Flatten(x)), Anchors(x))
    decreases x, 0
  {
    match x
    case Element(name, attrs, kids) =>
      RunElement(m, x);
      if name == "a" {
        assert Anchors(x)[0] == x && [x][1..] == [];
        var inside := m.(state := ConsumingA);
        AttrsInAnchor(inside, attrs);
        QuietAllInAnchor(inside.(fields := ApplyAll(m.fields, attrs)), kids);
      } else {
        AttrsElsewhere(m, attrs);
        ReportsAll(m, kids);
      }
    case Chars(text, following) =>
      TextIsIgnored(m, text, following);
  }

  lemma ReportsConcat(m: Machine, m1: Machine, m2: Machine, a: seq<Xml>, b: seq<Xml>)
    requires QuietAnchors(a) && QuietAnchors(b)
    requires Reports(m, m1, a) && Reports(m1, m2, b)
    ensures QuietAnchors(a + b) && Reports(m, m2, a + b)
  {
    hide Listing;
    ListingConcat(m.fields, a, b);
    var here, after := Listing(m.fields, a).0, Listing(m1.fields, b).0;
    assert m.found + here + after == m.found + (here + after);
  }

  lemma QuietParts(a: seq<Xml>, b: seq<Xml>)
    requires QuietAnchors(a + b)
    ensures QuietAnchors(a) && QuietAnchors(b)
  {
    assert forall i :: 0 <= i < |a| ==> (a + b)[i] == a[i];
    assert forall i :: 0 <= i < |b| ==> (a + b)[|a| + i] == b[i];
  }

  // From any point after the listing's div, the machine reports one entry an anchor.
  lemma {:induction false} ReportsAll(m: Machine, xs: seq<Xml>)
    requires m.state.WaitingForA? && QuietAnchors(AnchorsOfAll(xs))
    ensures Reports(m, Run(m, FlattenAll(xs)), AnchorsOfAll(xs))
    decreases xs, 1
  {
    if xs == [] {
      assert m.found + [] == m.found;
    } else {
      hide Listing, Run, QuietAll, Flatten, Anchors;
      var a, b := Anchors(xs[0]), AnchorsOfAll(xs[1..]);
      QuietParts(a, b);
      RunConcat(m, Flatten(xs[0]), FlattenAll(xs[1..]));
      ReportsOne(m, xs[0]);
      var m1 := Run(m, Flatten(xs[0]));
      ReportsAll(m1, xs[1..]);
      ReportsConcat(m, m1, Run(m1, FlattenAll(xs[1..])), a, b);
    }
  }

  // ---------- Before and after the listing ----------

  const ListingDiv := TagStart("div", Some(FILELIST_NODE_ID))

  lemma {:induction false} Prologue(m: Machine, es: seq<Event>)
    requires m.state.WaitingForDiv? && ListingDiv !in es
    ensures Run(m, es) == m
    decreases |es|
  {
    if es != [] {
      assert es[0] in es;
      Prologue(m, es[1..]);
    }
  }

  predicate OpensAnchor(e: Event) { e.TagStart? && e.name == "a" }

  lemma {:induction false} Epilogue(m: Machine, es: seq<Event>)
    requires m.state.WaitingForA? && forall i :: 0 <= i < |es| ==> !OpensAnchor(es[i])
    ensures Run(m, es) == m
    decreases |es|
  {
    if es != [] {
      Epilogue(m, es[1..]);
    }
  }

  // ---------- What an anchor's attributes say ----------

  // The last value given to the key, under any of its names.
  function Last(attrs: seq<Attr>, key: Key): Option<string>
    decreases |attrs|
  {
    if attrs == [] then None
    else
      var later := Last(attrs[1..], key);
      if later.Some? then later else if KeyOf(attrs[0].0) == key then Some(attrs[0].1) else None
  }

  function Or(first: Option<string>, second: Option<string>): Option<string> {
    if first.Some? then first else second
  }

  function OrNumber(first: Option<string>, second: int): int {
    if first.Some? then Atoll(first.value) else second
  }

  function Merged(f: Fields, attrs: seq<Attr>): Fields {
    Fields(
      Or(Last(attrs, NameKey), f.name), Or(Last(attrs, HashKey), f.hash), Or(Last(attrs, TypeKey), f.kind),
      OrNumber(Last(attrs, SizeKey), f.size), OrNumber(Last(attrs, LinkCountKey), f.linkCount),
      Or(Last(attrs, HrefKey), f.href), Or(Last(attrs, ClientKey), f.client))
  }

  lemma LastCons(attrs: seq<Attr>, key: Key)
    requires attrs != []
    ensures Last(attrs, key) == Or(Last(attrs[1..], key), if KeyOf(attrs[0].0) == key then Some(attrs[0].1) else None)
  {}

  lemma MergedCons(f: Fields, attrs: seq<Attr>)
    requires attrs != []
    ensures Merged(f, attrs) == Merged(Apply(f, attrs[0].0, attrs[0].1), attrs[1..])
  {
    hide KeyOf, Atoll, Last;
    LastCons(attrs, NameKey);
    LastCons(attrs, HashKey);
    LastCons(attrs, TypeKey);
    LastCons(attrs, SizeKey);
    LastCons(attrs, LinkCountKey);
    LastCons(attrs, HrefKey);
    LastCons(attrs, ClientKey);
  }

  // Each field takes the last value given to its key, and keeps its value when there is none.
  lemma {:induction false} ApplyAllIsLast(f: Fields, attrs: seq<Attr>)
    ensures ApplyAll(f, attrs) == Merged(f, attrs)
    decreases |attrs|
  {
    hide Apply;
    if attrs != [] {
      hide Merged;
      MergedCons(f, attrs);
      ApplyAllIsLast(Apply(f, attrs[0].0, attrs[0].1), attrs[1..]);
    }
  }

  predicate Complete(attrs: seq<Attr>) {
    && Last(attrs, NameKey).Some? && Last(attrs, HashKey).Some? && Last(attrs, TypeKey).Some?
    && Last(attrs, SizeKey).Some? && Last(attrs, LinkCountKey).Some?
    && Last(attrs, HrefKey).Some? && Last(attrs, ClientKey).Some?
  }

  // The parser never clears its fields: an entry is free of the entry before it exactly when its
  // anchor gives every attribute.
  lemma NothingStaleExactly(attrs: seq<Attr>)
    ensures (forall f, g :: ApplyAll(f, attrs) == ApplyAll(g, attrs)) <==> Complete(attrs)
  {
    forall f ensures Complete(attrs) ==> ApplyAll(f, attrs) == ApplyAll(Blank, attrs) {
      ApplyAllIsLast(f, attrs);
      ApplyAllIsLast(Blank, attrs);
    }
    var other := Fields(Some(""), Some(""), Some(""), 1, 1, Some(""), Some(""));
    ApplyAllIsLast(Blank, attrs);
    ApplyAllIsLast(other, attrs);
    if forall f, g :: ApplyAll(f, attrs) == ApplyAll(g, attrs) {
      assert ApplyAll(Blank, attrs) == ApplyAll(other, attrs);
    }
  }

  // ---------- Round trip ----------

  datatype Entry = Entry(name: string, hash: string, kind: string, size: nat, linkCount: nat, href: string, client: string)

  function AsFields(e: Entry): Fields {
    Fields(Some(e.name), Some(e.hash), Some(e.kind), e.size, e.linkCount, Some(e.href), Some(e.client))
  }

  predicate Says(attrs: seq<Attr>, key: Key, value: string) {
    exists i :: 0 <= i < |attrs| && KeyOf(attrs[i].0) == key && attrs[i].1 == value
             && forall j :: 0 <= j < |attrs| && KeyOf(attrs[j].0) == key ==> j == i
  }

  // The seven attributes of an entry, once each and in any order, among any others.
  predicate Describes(attrs: seq<Attr>, e: Entry) {
    && Says(attrs, NameKey, e.name) && Says(attrs, HashKey, e.hash) && Says(attrs, TypeKey, e.kind)
    && Says(attrs, SizeKey, Decimal(e.size)) && Says(attrs, LinkCountKey, Decimal(e.linkCount))
    && Says(attrs, HrefKey, e.href) && Says(attrs, ClientKey, e.client)
  }

  lemma {:induction false} LastIsSaid(attrs: seq<Attr>, key: Key, i: nat)
    requires i < |attrs| && KeyOf(attrs[i].0) == key
    requires forall j :: 0 <= j < |attrs| && KeyOf(attrs[j].0) == key ==> j == i
    ensures Last(attrs, key) == Some(attrs[i].1)
    decreases |attrs|
  {
    if i == 0 {
      LastIsNone(attrs[1..], key);
    } else {
      LastIsSaid(attrs[1..], key, i - 1);
    }
  }

  lemma {:induction false} LastIsNone(attrs: seq<Attr>, key: Key)
    requires forall j :: 0 <= j < |attrs| ==> KeyOf(attrs[j].0) != key
    ensures Last(attrs, key) == None
    decreases |attrs|
  {
    if attrs != [] {
      LastIsNone(attrs[1..], key);
    }
  }

  lemma LastOf(attrs: seq<Attr>, key: Key, value: string)
    requires Says(attrs, key, value)
    ensures Last(attrs, key) == Some(value)
  {
    var i :| 0 <= i < |attrs| && KeyOf(attrs[i].0) == key && attrs[i].1 == value
          && forall j :: 0 <= j < |attrs| && KeyOf(attrs[j].0) == key ==> j == i;
    LastIsSaid(attrs, key, i);
  }

  // Whatever the fields held before, they now hold the entry, sizes up to what 64 bits hold included.
  lemma DescribedEntry(f: Fields, attrs: seq<Attr>, e: Entry)
    requires Describes(attrs, e) && e.size <= INT64_MAX && e.linkCount <= INT64_MAX
    ensures ApplyAll(f, attrs) == AsFields(e)
  {
    hide Last, Says, ApplyAll, Atoll;
    ApplyAllIsLast(f, attrs);
    LastOf(attrs, NameKey, e.name);
    LastOf(attrs, HashKey, e.hash);
    LastOf(attrs, TypeKey, e.kind);
    LastOf(attrs, SizeKey, Decimal(e.size));
    LastOf(attrs, LinkCountKey, Decimal(e.linkCount));
    LastOf(attrs, HrefKey, e.href);
    LastOf(attrs, ClientKey, e.client);
    AtollDecimal(e.size);
    AtollDecimal(e.linkCount);
  }

  ghost predicate Lists(anchors: seq<Xml>, entries: seq<Entry>) {
    && |anchors| == |entries|
    && QuietAnchors(anchors)
    && (forall i :: 0 <= i < |entries| ==> Describes(anchors[i].attrs, entries[i]))
    && (forall i :: 0 <= i < |entries| ==> entries[i].size <= INT64_MAX && entries[i].linkCount <= INT64_MAX)
  }

  lemma ListedAnchorsAreQuiet(anchors: seq<Xml>, entries: seq<Entry>)
    requires Lists(anchors, entries)
    ensures QuietAnchors(anchors)
  {}

  lemma {:induction false} ListedEntries(f: Fields, anchors: seq<Xml>, entries: seq<Entry>)
    requires Lists(anchors, entries)
    ensures Listing(f, anchors).0 == seq(|entries|, i requires 0 <= i < |entries| => AsFields(entries[i]))
    decreases |anchors|
  {
    hide Describes, ApplyAll, QuietAll;
    if anchors != [] {
      DescribedEntry(f, anchors[0].attrs, entries[0]);
      ListedEntries(AsFields(entries[0]), anchors[1..], entries[1..]);
    }
  }

  /** The listing may sit anywhere in the document, and its anchors anywhere in the listing: the
      callbacks are the entries, in document order. */
  lemma RoundTrip(before: seq<Event>, attrs: seq<Attr>, kids: seq<Xml>, after: seq<Event>, entries: seq<Entry>)
    requires ListingDiv !in before
    requires IdOf(attrs) == Some(FILELIST_NODE_ID)
    requires Lists(AnchorsOfAll(kids), entries)
    requires forall i :: 0 <= i < |after| ==> !OpensAnchor(after[i])
    ensures Run(Start, before + StartEvents("div", attrs) + FlattenAll(kids) + after).found
         == seq(|entries|, i requires 0 <= i < |entries| => AsFields(entries[i]))
  {
    hide Run, FlattenAll, AnchorsOfAll, Listing, Lists;
    var waiting := Start.(state := WaitingForA);
    RunConcat(Start, before + StartEvents("div", attrs) + FlattenAll(kids), after);
    RunConcat(Start, before + StartEvents("div", attrs), FlattenAll(kids));
    RunConcat(Start, before, StartEvents("div", attrs));
    Prologue(Start, before);
    RunConcat(Start, [ListingDiv], AttrEvents(attrs));
    RunOne(Start, ListingDiv);
    AttrsElsewhere(waiting, attrs);
    ListedAnchorsAreQuiet(AnchorsOfAll(kids), entries);
    ReportsAll(waiting, kids);
    Epilogue(Run(waiting, FlattenAll(kids)), after);
    ListedEntries(Blank, AnchorsOfAll(kids), entries);
  }

  // ---------- Whole documents ----------

  predicate IsListing(name: string, attrs: seq<Attr>) {
    name == "div" && IdOf(attrs) == Some(FILELIST_NODE_ID)
  }

  /** The anchors that count, in document order, and whether a listing has been seen by then (`open`, at first).
      They are those in the first listing, and all that come after it has begun: its end is not looked for. */
  function Seen(x: Xml, open: bool): (r: (seq<Xml>, bool))
    ensures open ==> r == (Anchors(x), true)
    decreases x, 0
  {
    match x
    case Element(name, attrs, kids) =>
      if open then (Anchors(x), true)
      else if IsListing(name, attrs) then (AnchorsOfAll(kids), true)
      else SeenAll(kids, false)
    case Chars(_, _) => ([], open)
  }

  function SeenAll(xs: seq<Xml>, open: bool): (r: (seq<Xml>, bool))
    ensures open ==> r == (AnchorsOfAll(xs), true)
    decreases xs, 1
  {
    if xs == [] then ([], open)
    else
      var (here, after) := Seen(xs[0], open);
      var (later, last) := SeenAll(xs[1..], after);
      (here + later, last)
  }

  function Waiting(open: bool): State {
    if open then WaitingForA else WaitingForDiv
  }

  ghost predicate ReportsSeen(m: Machine, m': Machine, seen: (seq<Xml>, bool))
    requires QuietAnchors(seen.0)
  {
    && m'.state == Waiting(seen.1)
    && m'.found == m.found + Listing(m.fields, seen.0).0
    && m'.fields == Listing(m.fields, seen.0).1
  }

  lemma {:induction false} DocumentReports(m: Machine, x: Xml, open: bool)
    requires m.state == Waiting(open) && QuietAnchors(Seen(x, open).0)
    ensures ReportsSeen(m, Run(m, Flatten(x)), Seen(x, open))
    decreases x, 0
  {
    hide Listing, Run, FlattenAll, Anchors, AnchorsOfAll, AttrEvents, IdOf, CharEvents, QuietAnchors;
    if open {
      ReportsOne(m, x);
    } else {
      match x
      case Element(name, attrs, kids) =>
        RunElement(m, x);
        if IsListing(name, attrs) {
          var waiting := m.(state := WaitingForA);
          AttrsElsewhere(waiting, attrs);
          ReportsAll(waiting, kids);
        } else {
          AttrsElsewhere(m, attrs);
          DocumentsReport(m, kids, false);
        }
      case Chars(text, following) =>
        TextIsIgnored(m, text, following);
        NothingListed(m);
    }
  }

  lemma NothingListed(m: Machine)
    ensures QuietAnchors([]) && Listing(m.fields, []) == ([], m.fields) && m.found + [] == m.found
  {}

  lemma {:induction false} DocumentsReport(m: Machine, xs: seq<Xml>, open: bool)
    requires m.state == Waiting(open) && QuietAnchors(SeenAll(xs, open).0)
    ensures ReportsSeen(m, Run(m, FlattenAll(xs)), SeenAll(xs, open))
    decreases xs, 1
  {
    hide Listing, Flatten, Anchors, AnchorsOfAll, QuietAnchors;
    if xs == [] {
      NothingListed(m);
    } else {
      var here, all := Seen(xs[0], open), SeenAll(xs, open);
      var later := SeenAll(xs[1..], here.1);
      assert all == (here.0 + later.0, later.1);
      QuietParts(here.0, later.0);
      RunConcat(m, Flatten(xs[0]), FlattenAll(xs[1..]));
      DocumentReports(m, xs[0], open);
      var m1 := Run(m, Flatten(xs[0]));
      DocumentsReport(m1, xs[1..], here.1);
      SeenConcat(m, m1, Run(m1, FlattenAll(xs[1..])), here, later);
    }
  }

  lemma SeenConcat(m: Machine, m1: Machine, m2: Machine, a: (seq<Xml>, bool), b: (seq<Xml>, bool))
    requires QuietAnchors(a.0) && QuietAnchors(b.0)
    requires ReportsSeen(m, m1, a) && ReportsSeen(m1, m2, b)
    ensures QuietAnchors(a.0 + b.0) && ReportsSeen(m, m2, (a.0 + b.0, b.1))
  {
    hide Listing;
    ListingConcat(m.fields, a.0, b.0);
    var here, after := Listing(m.fields, a.0).0, Listing(m1.fields, b.0).0;
    assert m.found + here + after == m.found + (here + after);
  }

  // Whatever the document, the callbacks are the entries that its anchors describe from the first listing on.
  lemma DocumentRoundTrip(x: Xml, entries: seq<Entry>)
    requires Lists(Seen(x, false).0, entries)
    ensures Run(Start, Flatten(x)).found == seq(|entries|, i requires 0 <= i < |entries| => AsFields(entries[i]))
  {
    hide Run, Flatten, Seen, Listing, Lists;
    ListedAnchorsAreQuiet(Seen(x, false).0, entries);
    DocumentReports(Start, x, false);
    ListedEntries(Blank, Seen(x, false).0, entries);
  }

  // The first listing of a document.
  function FirstListing(x: Xml): Option<Xml>
    decreases x, 0
  {
    match x
    case Element(name, attrs, kids) => if IsListing(name, attrs) then Some(x) else FirstListingAll(kids)
    case Chars(_, _) => None
  }

  function FirstListingAll(xs: seq<Xml>): Option<Xml>
    decreases xs, 1
  {
    if xs == [] then None
    else
      var here := FirstListing(xs[0]);
      if here.Some? then here else FirstListingAll(xs[1..])
  }

  // The anchors inside it.
  function Listed(first: Option<Xml>): seq<Xml> {
    if first.Some? && first.value.Element? then AnchorsOfAll(first.value.kids) else []
  }

  // The anchors that come after it has ended.
  function Later(x: Xml): seq<Xml>
    decreases x, 0
  {
    match x
    case Element(name, attrs, kids) => if IsListing(name, attrs) then [] else LaterAll(kids)
    case Chars(_, _) => []
  }

  function LaterAll(xs: seq<Xml>): seq<Xml>
    decreases xs, 1
  {
    if xs == [] then []
    else if FirstListing(xs[0]).Some? then Later(xs[0]) + AnchorsOfAll(xs[1..])
    else LaterAll(xs[1..])
  }

  lemma {:induction false} SeenParts(x: Xml)
    ensures Seen(x, false) == (Listed(FirstListing(x)) + Later(x), FirstListing(x).Some?)
    ensures FirstListing(x).None? ==> Later(x) == []
    decreases x, 0
  {
    hide Anchors, AnchorsOfAll, IdOf;
    match x
    case Element(name, attrs, kids) =>
      if IsListing(name, attrs) {
        assert AnchorsOfAll(kids) + [] == AnchorsOfAll(kids);
      } else {
        SeenAllParts(kids);
      }
    case Chars(_, _) =>
      NoneListed([]);
  }

  lemma {:induction false} SeenAllParts(xs: seq<Xml>)
    ensures SeenAll(xs, false) == (Listed(FirstListingAll(xs)) + LaterAll(xs), FirstListingAll(xs).Some?)
    ensures FirstListingAll(xs).None? ==> LaterAll(xs) == []
    decreases xs, 1
  {
    hide Anchors, AnchorsOfAll, Seen, Later, FirstListing, Listed;
    if xs == [] {
      NoneListed([]);
    } else {
      SeenParts(xs[0]);
      SeenAllParts(xs[1..]);
      var here, rest := Listed(FirstListing(xs[0])), AnchorsOfAll(xs[1..]);
      assert here + Later(xs[0]) + rest == here + (Later(xs[0]) + rest);
      NoneListed([]);
      NoneListed(SeenAll(xs[1..], false).0);
    }
  }

  lemma NoneListed(later: seq<Xml>)
    ensures Listed(None) + later == later
  {}

  lemma {:induction false} OneEach(f: Fields, anchors: seq<Xml>)
    requires QuietAnchors(anchors)
    ensures |Listing(f, anchors).0| == |anchors|
    decreases |anchors|
  {
    if anchors != [] {
      OneEach(ApplyAll(f, anchors[0].attrs), anchors[1..]);
    }
  }

  /** What the callbacks are beyond the listing: on any document they begin with those of its first listing, and are only
      those exactly if no anchor comes after it. */
  lemma OnlyTheListingExactly(x: Xml)
    requires QuietAnchors(Seen(x, false).0)
    ensures QuietAnchors(Listed(FirstListing(x)))
    ensures var found, listed := Run(Start, Flatten(x)).found, Listing(Blank, Listed(FirstListing(x))).0;
            && listed <= found && |found| == |listed| + |Later(x)|
            && (found == listed <==> Later(x) == [])
  {
    hide Run, Flatten, Seen, Listing, QuietAnchors, FirstListing, Later, Listed;
    var a, b := Listed(FirstListing(x)), Later(x);
    SeenParts(x);
    QuietParts(a, b);
    DocumentReports(Start, x, false);
    ListingConcat(Blank, a, b);
    var f' := Listing(Blank, a).1;
    OneEach(f', b);
    NothingFound(Listing(Blank, a + b).0);
  }

  lemma NothingFound(found: seq<Fields>)
    ensures [] + found == found
  {}

  // ---------- The names of the format ----------

  // Which attribute each name is of.
  lemma KeysByName(name: string)
    ensures KeyOf(name) == NameKey <==> name == "fs2-name"
    ensures KeyOf(name) == HashKey <==> name == "fs2-hash"
    ensures KeyOf(name) == TypeKey <==> name == "fs2-type"
    ensures KeyOf(name) == SizeKey <==> name == "fs2-size"
    ensures KeyOf(name) == LinkCountKey <==> name == "fs2-linkcount" || name == "fs2-alternativescount"
    ensures KeyOf(name) == HrefKey <==> name == "href"
    ensures KeyOf(name) == ClientKey <==> name == "fs2-clientalias"
  {}

  // The id of a tag is its last.
  lemma {:induction false} IdOfIsLast(attrs: seq<Attr>)
    ensures IdOf(attrs).None? ==> forall i :: 0 <= i < |attrs| ==> attrs[i].0 != "id"
    ensures IdOf(attrs).Some? ==> exists i :: 0 <= i < |attrs| && attrs[i] == ("id", IdOf(attrs).value)
                                             && forall j :: i < j < |attrs| ==> attrs[j].0 != "id"
    decreases |attrs|
  {
    if attrs != [] {
      var n := |attrs| - 1;
      IdOfIsLast(attrs[..n]);
      if attrs[n].0 == "id" {
        assert attrs[n] == ("id", IdOf(attrs).value);
      } else if IdOf(attrs).Some? {
        var i :| 0 <= i < n && attrs[..n][i] == ("id", IdOf(attrs).value) && forall j :: i < j < n ==> attrs[..n][j].0 != "id";
        assert attrs[i] == ("id", IdOf(attrs).value);
        assert forall j :: i < j < n ==> attrs[j] == attrs[..n][j];
      }
    }
  }

  // The white space that a text begins with.
  lemma {:induction false} SpanIsBlank(s: string)
    ensures Span(s) <= |s| && forall i :: 0 <= i < Span(s) ==> s[i] in [' ', '\t', '\n', '\r']
    ensures Span(s) < |s| ==> s[Span(s)] !in [' ', '\t', '\n', '\r']
    decreases |s|
  {
    if s != "" && IsBlank(s[0]) {
      SpanIsBlank(s[1..]);
    }
  }

  // A listing as a peer may write it.
  function Written(entries: seq<Entry>): (anchors: seq<Xml>)
    ensures |anchors| == |entries|
  {
    if entries == [] then []
    else
      var e := entries[0];
      [Element("a", [("fs2-name", e.name), ("fs2-hash", e.hash), ("fs2-type", e.kind), ("fs2-size", Decimal(e.size)),
                     ("fs2-linkcount", Decimal(e.linkCount)), ("href", e.href), ("fs2-clientalias", e.client)],
               [Chars(e.name, "")])]
      + Written(entries[1..])
  }

  function Page(entries: seq<Entry>): Xml {
    Element("html", [], [Element("div", [("id", "fs2-filelist")], Written(entries))])
  }

  lemma WrittenDescribes(e: Entry)
    ensures Describes(Written([e])[0].attrs, e)
  {
    hide Decimal;
    var attrs := Written([e])[0].attrs;
    assert Says(attrs, NameKey, e.name) by {
      assert KeyOf(attrs[0].0) == NameKey;
    }
    assert Says(attrs, HashKey, e.hash) by {
      assert KeyOf(attrs[1].0) == HashKey;
    }
    assert Says(attrs, TypeKey, e.kind) by {
      assert KeyOf(attrs[2].0) == TypeKey;
    }
    assert Says(attrs, SizeKey, Decimal(e.size)) by {
      assert KeyOf(attrs[3].0) == SizeKey;
    }
    assert Says(attrs, LinkCountKey, Decimal(e.linkCount)) by {
      assert KeyOf(attrs[4].0) == LinkCountKey;
    }
    assert Says(attrs, HrefKey, e.href) by {
      assert KeyOf(attrs[5].0) == HrefKey;
    }
    assert Says(attrs, ClientKey, e.client) by {
      assert KeyOf(attrs[6].0) == ClientKey;
    }
  }

  lemma {:induction false} WrittenLists(entries: seq<Entry>)
    requires forall i :: 0 <= i < |entries| ==> entries[i].size <= INT64_MAX && entries[i].linkCount <= INT64_MAX
    ensures AnchorsOfAll(Written(entries)) == Written(entries) && Lists(Written(entries), entries)
    decreases |entries|
  {
    hide Describes, Decimal;
    if entries != [] {
      WrittenLists(entries[1..]);
      WrittenDescribes(entries[0]);
      var w := Written(entries);
      assert w[0] == Written([entries[0]])[0] && w[1..] == Written(entries[1..]);
      assert Anchors(w[0]) == [w[0]];
      forall i | 0 <= i < |entries|
        ensures w[i].Element? && QuietAll(w[i].kids) && Describes(w[i].attrs, entries[i])
      {
        if i > 0 {
          assert w[i] == Written(entries[1..])[i - 1] && entries[i] == entries[1..][i - 1];
        }
      }
    }
  }

  // What is written in the names of the format is read as it was meant.
  lemma PageRoundTrip(entries: seq<Entry>)
    requires forall i :: 0 <= i < |entries| ==> entries[i].size <= INT64_MAX && entries[i].linkCount <= INT64_MAX
    ensures var found := Run(Start, Flatten(Page(entries))).found;
            && |found| == |entries|
            && forall i :: 0 <= i < |entries| ==>
                 && found[i].name == Some(entries[i].name) && found[i].hash == Some(entries[i].hash)
                 && found[i].kind == Some(entries[i].kind) && found[i].size == entries[i].size
                 && found[i].linkCount == entries[i].linkCount && found[i].href == Some(entries[i].href)
                 && found[i].client == Some(entries[i].client)
  {
    hide Run, Flatten, Lists, Written, AnchorsOfAll;
    WrittenLists(entries);
    var div := Element("div", [("id", "fs2-filelist")], Written(entries));
    assert IsListing("div", [("id", "fs2-filelist")]);
    assert Seen(div, false) == (Written(entries), true);
    assert [div][1..] == [];
    NoneSeen(Written(entries));
    DocumentRoundTrip(Page(entries), entries);
  }

  lemma NoneSeen(anchors: seq<Xml>)
    ensures SeenAll([], true) == ([], true) && anchors + [] == anchors
  {}

  // ---------- The parser itself ----------

  class ParserFilelist {
    var state: State
    var name: Option<string>
    var hash: Option<string>
    var kind: Option<string>
    var href: Option<string>
    var client: Option<string>
    var size: int
    var linkCount: int
    var calls: seq<Fields>  // the arguments of the callbacks made so far

    function Model(): Machine
      reads this
    {
      Machine(state, Fields(name, hash, kind, size, linkCount, href, client), calls)
    }

    constructor ()
      ensures Model() == Start
    {
      state := WaitingForDiv;
      name, hash, kind, href, client := None, None, None, None, None;
      size, linkCount := 0, 0;
      calls := [];
    }

    method FilelistXmlCb(e: Event)
      modifies this
      ensures Model() == Step(old(Model()), e)
    {
      match state {
        case WaitingForDiv =>
          if e.TagStart? && e.name == "div" && e.id.Some? && e.id.value == FILELIST_NODE_ID {
            state := WaitingForA;
          }
        case WaitingForA =>
          if e.TagStart? && e.name == "a" {
            state := ConsumingA;
          }
        case ConsumingA =>
          if e.Attribute? {
            if e.name == NAME_KEY {
              name := Some(e.value);
            } else if e.name == HASH_KEY {
              hash := Some(e.value);
            } else if e.name == TYPE_KEY {
              kind := Some(e.value);
            } else if e.name == SIZE_KEY {
              size := Atoll(e.value);
            } else if e.name == LINKCOUNT_KEY || e.name == ALTERNATIVESCOUNT_KEY {
              linkCount := Atoll(e.value);
            } else if e.name == HREF_KEY {
              href := Some(e.value);
            } else if e.name == CLIENTALIAS_KEY {
              client := Some(e.value);
            }
          }
          if e.TagEnd? && e.name == "a" {
            calls := calls + [Fields(name, hash, kind, size, linkCount, href, client)];
            state := WaitingForA;
          }
      }
    }
  }

  class ParserXml {
    const filelist: ParserFilelist

    constructor (filelist: ParserFilelist)
      ensures this.filelist == filelist
    {
      this.filelist := filelist;
    }

    method OnStartElementNs(localname: string, attributes: seq<Attr>)
      modifies filelist
      ensures filelist.Model() == Run(old(filelist.Model()), StartEvents(localname, attributes))
    {
      hide Step, Run, AttrEvents;
      var id := None;
      var i := 0;
      while i < |attributes|
        invariant 0 <= i <= |attributes|
        invariant id == IdOf(attributes[..i])
        modifies {}
      {
        assert attributes[..i + 1][..i] == attributes[..i];
        if attributes[i].0 == "id" {
          id := Some(attributes[i].1);
        }
        i := i + 1;
      }
      assert attributes[..i] == attributes;
      ghost var m := filelist.Model();
      filelist.FilelistXmlCb(TagStart(localname, id));
      RunOne(m, TagStart(localname, id));
      RunConcat(m, [TagStart(localname, id)], AttrEvents(attributes));
      ghost var raised := filelist.Model();
      i := 0;
      assert attributes[..0] == [];
      RunNoAttrs(raised);
      while i < |attributes|
        invariant 0 <= i <= |attributes|
        invariant filelist.Model() == Run(raised, AttrEvents(attributes[..i]))
      {
        RunAttr(raised, attributes[..i], attributes[i]);
        assert attributes[..i + 1] == attributes[..i] + [attributes[i]];
        if attributes[i].0 != "id" {
          filelist.FilelistXmlCb(Attribute(attributes[i].0, attributes[i].1));
        }
        i := i + 1;
      }
      assert attributes[..i] == attributes;
    }

    // The calls of the SAX parser for a piece of document.
    method Replay(x: Xml)
      modifies filelist
      ensures filelist.Model() == Run(old(filelist.Model()), Flatten(x))
      decreases x
    {
      hide Run, StartEvents, CharEvents;
      ghost var m := filelist.Model();
      match x {
        case Element(name, attrs, kids) =>
          OnStartElementNs(name, attrs);
          ghost var started := filelist.Model();
          assert kids[..0] == [];
          RunNone(started);
          var i := 0;
          while i < |kids|
            invariant 0 <= i <= |kids|
            invariant filelist.Model() == Run(started, FlattenAll(kids[..i]))
          {
            Replay(kids[i]);
            FlattenAllSnoc(kids, i);
            RunConcat(started, FlattenAll(kids[..i]), Flatten(kids[i]));
            i := i + 1;
          }
          assert kids[..i] == kids;
          OnEndElementNs(name);
          RunConcat(m, StartEvents(name, attrs), FlattenAll(kids));
          RunConcat(m, StartEvents(name, attrs) + FlattenAll(kids), [TagEnd(name)]);
        case Chars(text, following) =>
          var buffer := text + following;
          assert buffer[..|text|] == text && buffer[|text|..] == following;
          OnCharacters(buffer, |text|);
      }
    }

    method OnEndElementNs(localname: string)
      modifies filelist
      ensures filelist.Model() == Run(old(filelist.Model()), [TagEnd(localname)])
    {
      RunOne(filelist.Model(), TagEnd(localname));
      filelist.FilelistXmlCb(TagEnd(localname));
    }

    // `buffer` is everything from the text on, of which the text is the first `len` characters.
    method OnCharacters(buffer: string, len: nat)
      requires len <= |buffer|
      modifies filelist
      ensures filelist.Model() == Run(old(filelist.Model()), CharEvents(buffer[..len], buffer[len..]))
    {
      assert buffer[..len] + buffer[len..] == buffer;
      if Span(buffer) != len {
        RunOne(filelist.Model(), Text(buffer[..len]));
        filelist.FilelistXmlCb(Text(buffer[..len]));
      }
    }
  }

  lemma {:induction false} FlattenAllSnoc(xs: seq<Xml>, i: nat)
    requires i < |xs|
    ensures FlattenAll(xs[..i + 1]) == FlattenAll(xs[..i]) + Flatten(xs[i])
    decreases i
  {
    hide Flatten;
    var front := xs[..i + 1];
    assert front[0] == xs[0] && front[1..] == xs[1..][..i];
    if i == 0 {
      assert xs[..0] == [] && front[1..] == [];
      assert Flatten(xs[0]) + [] == [] + Flatten(xs[0]);
    } else {
      var h, before := i - 1, xs[..i];
      assert before[0] == xs[0] && before[1..] == xs[1..][..h];
      FlattenAllSnoc(xs[1..], h);
      var a, b := FlattenAll(before[1..]), Flatten(xs[i]);
      assert Flatten(xs[0]) + (a + b) == Flatten(xs[0]) + a + b;
    }
  }

  // A page written in the names of the format, through the parser.
  method ParsePage(entries: seq<Entry>) returns (calls: seq<Fields>)
    requires forall i :: 0 <= i < |entries| ==> entries[i].size <= INT64_MAX && entries[i].linkCount <= INT64_MAX
    ensures |calls| == |entries|
    ensures forall i :: 0 <= i < |entries| ==>
              && calls[i].name == Some(entries[i].name) && calls[i].hash == Some(entries[i].hash)
              && calls[i].kind == Some(entries[i].kind) && calls[i].size == entries[i].size
              && calls[i].linkCount == entries[i].linkCount && calls[i].href == Some(entries[i].href)
              && calls[i].client == Some(entries[i].client)
  {
    hide Run, Flatten, Seen, Lists, Page;
    calls := Parse(Page(entries));
    PageRoundTrip(entries);
  }

  // A whole document through the parser: what its callbacks were, in order.
  method Parse(x: Xml) returns (calls: seq<Fields>)
    ensures calls == Run(Start, Flatten(x)).found
    ensures forall entries :: Lists(Seen(x, false).0, entries) ==>
              calls == seq(|entries|, i requires 0 <= i < |entries| => AsFields(entries[i]))
  {
    hide Run, Flatten, Seen, Lists;
    var filelist := new ParserFilelist();
    var parser := new ParserXml(filelist);
    parser.Replay(x);
    calls := filelist.calls;
    forall entries | Lists(Seen(x, false).0, entries)
      ensures calls == seq(|entries|, i requires 0 <= i < |entries| => AsFields(entries[i]))
    {
      DocumentRoundTrip(x, entries);
    }
  }

  lemma {:induction false} AttrEventsSnoc(attrs: seq<Attr>, last: Attr)
    ensures AttrEvents(attrs + [last]) == AttrEvents(attrs) + OwnEvent(last)
    decreases |attrs|
  {
    hide OwnEvent;
    if attrs == [] {
      assert attrs + [last] == [last] && [last][1..] == [];
      assert OwnEvent(last) + [] == [] + OwnEvent(last);
    } else {
      var all, rest := attrs + [last], attrs[1..];
      assert all[0] == attrs[0] && all[1..] == rest + [last];
      AttrEventsSnoc(rest, last);
      assert OwnEvent(attrs[0]) + (AttrEvents(rest) + OwnEvent(last)) == OwnEvent(attrs[0]) + AttrEvents(rest) + OwnEvent(last);
    }
  }

  lemma RunNoAttrs(m: Machine)
    ensures Run(m, AttrEvents([])) == m
  {}

  lemma RunAttr(m: Machine, attrs: seq<Attr>, last: Attr)
    ensures Run(m, AttrEvents(attrs + [last]))
         == var here := Run(m, AttrEvents(attrs)); if last.0 == "id" then here else Step(here, Attribute(last.0, last.1))
  {
    hide Step, Run;
    AttrEventsSnoc(attrs, last);
    if last.0 == "id" {
      assert AttrEvents(attrs) + [] == AttrEvents(attrs);
    } else {
      RunConcat(m, AttrEvents(attrs), [Attribute(last.0, last.1)]);
      RunOne(Run(m, AttrEvents(attrs)), Attribute(last.0, last.1));
    }
  }
}
