/** The syntax tree of src/ast (entry.rs and entries/{root,object,property}.rs) and its
    GTK Builder XML. The Rust structs are values here; their in-place `add_child` and
    `require` are functions returning the updated value. */
module Ast {

  import opened Wrappers

  /** A `using` line: the library and its version. */
  datatype Requirement =
    | Gtk(version: string)
    | Libadwaita(version: string)
    | Other(lib: string, version: string)
  {
    /** `Requirement::get_xml`: a `<requires/>` tag; libadwaita produces none. */
    function Xml(): (r: Option<string>)
      ensures r.None? <==> Libadwaita?
      ensures Gtk? ==> r == Some(RequiresTag("gtk", version))
      ensures Other? ==> r == Some(RequiresTag(lib, version))
    {
      match this
      case Gtk(v) => Some(RequiresTag("gtk", v))
      case Other(l, v) => Some(RequiresTag(l, v))
      case Libadwaita(_) => None
    }
  }

  function RequiresTag(lib: string, version: string): string {
    "<requires lib=\"" + lib + "\" version=\"" + version + "\"/>"
  }

  /** The library spellings `Requirement::new` recognises; the match is exact. */
  const GtkNames: set<string> := {"gtk", "Gtk", "GTK"}
  const AdwNames: set<string> := {"adw", "Adw", "ADW", "libadwaita", "Libadwaita"}

  /** `Requirement::new`. */
  function NewRequirement(lib: string, version: string): (r: Requirement)
    ensures r.version == version
    ensures r.Gtk? <==> lib in GtkNames
    ensures r.Libadwaita? <==> lib in AdwNames
    ensures r.Other? ==> r.lib == lib
  {
    if lib == "gtk" || lib == "Gtk" || lib == "GTK" then
      Gtk(version)
    else if lib == "adw" || lib == "Adw" || lib == "ADW" || lib == "libadwaita" || lib == "Libadwaita" then
      Libadwaita(version)
    else
      Other(lib, version)
  }

  /** `Entry`; the variants are renamed after what they hold. */
  datatype Entry =
    | RootEntry(root: Root)
    | ObjectEntry(obj: Object)
    | PropertyEntry(prop: Property)
  {
    /** `Entry::get_xml`: the XML of the wrapped value. */
    function Xml(): string
      decreases this, 0
    {
      match this
      case RootEntry(r) => r.Xml()
      case ObjectEntry(o) => o.Xml()
      case PropertyEntry(p) => p.Xml()
    }
  }

  /** `s` begins with `open` and ends with `close`, which do not overlap. */
  predicate Encloses(s: string, open: string, close: string) {
    |open| + |close| <= |s| && s[..|open|] == open && s[|s| - |close|..] == close
  }

  const XmlHeader: string := "<?xml version=\"1.0\" encoding=\"UTF-8\"?><interface>"

  datatype Root = Root(requirements: seq<Requirement>, children: seq<Entry>)
  {
    /** `Root::add_child`. */
    function AddChild(child: Entry): (r: Root)
      ensures r.children == children + [child] && r.requirements == requirements
    {
      Root(requirements, children + [child])
    }

    /** `Root::require`. */
    function Require(requirement: Requirement): (r: Root)
      ensures r.requirements == requirements + [requirement] && r.children == children
    {
      Root(requirements + [requirement], children)
    }

    /** `Root::get_xml`: the header, the requirements that have a tag, the children. */
    function Xml(): string
      decreases this, 0
    {
      XmlHeader + RequirementsXml(requirements) + EntriesXml(children) + "</interface>"
    }
  }

  datatype Object = Object(className: string, name: Option<string>, children: seq<Entry>)
  {
    /** `Object::add_child`. */
    function AddChild(child: Entry): (r: Object)
      ensures r.children == children + [child]
      ensures r.className == className && r.name == name
    {
      Object(className, name, children + [child])
    }

    /** `Object::get_xml`: the opening tag, the property children, the other children
        each wrapped in `<child>`, and the closing tag. */
    function Xml(): string
      decreases this, 0
    {
      OpenTag(className, name) + PropertiesXml(children) + ChildElementsXml(children) + "</object>"
    }
  }

  /** `PropertyValue`; the variants are renamed after what they hold. */
  datatype PropertyValue = TextValue(text: string) | ObjectValue(obj: Object)

  datatype Property = Property(name: string, value: PropertyValue)
  {
    /** `Property::get_xml`: text verbatim, an object as its own XML. */
    function Xml(): string
      decreases this, 0
    {
      PropertyOpen(name)
        + (match value
           case TextValue(t) => t
           case ObjectValue(o) => o.Xml())
        + "</property>"
    }
  }

  function PropertyOpen(name: string): string {
    "<property name=\"" + name + "\">"
  }

  /** `class.replace(".", "")`. */
  function RemoveDots(s: string): (r: string)
    ensures '.' !in r
    ensures |r| <= |s|
  {
    if s == [] then []
    else
      RemoveDots(s[..|s| - 1]) + (if s[|s| - 1] == '.' then [] else [s[|s| - 1]])
  }

  /** The `beginning` of `Object::get_xml`. */
  function OpenTag(className: string, name: Option<string>): string {
    match name
    case Some(n) => "<object class=\"" + RemoveDots(className) + "\" id=\"" + n + "\">"
    case None => "<object class=\"" + RemoveDots(className) + "\">"
  }

  /** The tags of the requirements, in order, skipping those without one. */
  function RequirementsXml(rs: seq<Requirement>): string {
    if rs == [] then "" else RequirementsXml(rs[..|rs| - 1]) + Tag(rs[|rs| - 1])
  }

  /** What `filter_map` keeps of one requirement. */
  function Tag(q: Requirement): string {
    match q.Xml()
    case Some(tag) => tag
    case None => ""
  }

  /** The XML of the entries, in order. */
  function EntriesXml(es: seq<Entry>): string
    decreases es, 0
  {
    if es == [] then "" else EntriesXml(es[..|es| - 1]) + es[|es| - 1].Xml()
  }

  /** The `properties` string of `Object::get_xml` after the children `es`. */
  function PropertiesXml(es: seq<Entry>): string
    decreases es, 0
  {
    if es == [] then "" else PropertiesXml(es[..|es| - 1]) + PropertyPart(es[|es| - 1])
  }

  /** What one child adds to the `properties` string. */
  function PropertyPart(e: Entry): string
    decreases e, 0
  {
    match e
    case PropertyEntry(p) => p.Xml()
    case _ => ""
  }

  /** The `children` string of `Object::get_xml` after the children `es`. */
  function ChildElementsXml(es: seq<Entry>): string
    decreases es, 0
  {
    if es == [] then "" else ChildElementsXml(es[..|es| - 1]) + ChildPart(es[|es| - 1])
  }

  /** What one child adds to the `children` string. */
  function ChildPart(e: Entry): string
    decreases e, 2
  {
    if e.PropertyEntry? then "" else ChildElement(e)
  }

  /** `<child>…</child>` around an entry. */
  function ChildElement(e: Entry): string
    decreases e, 1
  {
    "<child>" + e.Xml() + "</child>"
  }

  /** The entries `Root::filter` hands to its predicate, in the order it does so: each
      entry before its descendants; an object's children; for a property holding an
      object, that object (as an object entry) and then its children. A nested root is
      handed over but not entered. */
  function PreOrder(es: seq<Entry>): seq<Entry>
    decreases es
  {
    if es == [] then [] else Visited(es[0]) + PreOrder(es[1..])
  }

  function Visited(e: Entry): seq<Entry>
    decreases e
  {
    [e] + match e
      case ObjectEntry(o) => PreOrder(o.children)
      case PropertyEntry(Property(_, ObjectValue(o))) => [ObjectEntry(o)] + PreOrder(o.children)
      case _ => []
  }

  /** The `Some` results of `f` over `es`, in order. */
  function FilterMap<F>(es: seq<Entry>, f: Entry -> Option<F>): seq<F> {
    if es == [] then [] else Found(f(es[0])) + FilterMap(es[1..], f)
  }

  function Found<F>(x: Option<F>): seq<F> {
    if x.Some? then [x.value] else []
  }

  /** `filter_entries`, one loop iteration per entry of `es`. */
  function Filtered<F>(es: seq<Entry>, f: Entry -> Option<F>): seq<F>
    decreases es
  {
    if es == [] then [] else Filtered(es[..|es| - 1], f) + FilteredOne(es[|es| - 1], f)
  }

  /** The body of the loop of `filter_entries` for the entry `e`. */
  function FilteredOne<F>(e: Entry, f: Entry -> Option<F>): seq<F>
    decreases e
  {
    Found(f(e))
      + match e
        case ObjectEntry(o) => Filtered(o.children, f)
        case PropertyEntry(Property(_, ObjectValue(o))) =>
          Found(f(ObjectEntry(o))) + Filtered(o.children, f)
        case _ => []
  }

  /** The selector `get_named_objects` passes to `filter`. */
  function NamedObject(e: Entry): Option<(string, Object)> {
    match e
    case ObjectEntry(o) => if o.name.Some? then Some((o.name.value, o)) else None
    case _ => None
  }
}
