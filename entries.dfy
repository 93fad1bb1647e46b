/** The loops of src/ast: `Object::get_xml`, which accumulates the property and the
    child elements in two strings, and `Root::filter`, whose `filter_entries` pushes and
    appends what the selector finds while it walks the tree. */
module Entries {

  import opened Wrappers
  import opened Ast
  import opened AstProps

  /** `Object::get_xml`. */
  method ObjectGetXml(o: Object) returns (s: string)
    ensures s == o.Xml()
    ensures s == OpenTag(o.className, o.name) + EntriesXml(Properties(o.children))
                 + WrappedXml(NonProperties(o.children)) + "</object>"
  {
    var className := RemoveDots(o.className);
    var beginning := match o.name
      case Some(n) => "<object class=\"" + className + "\" id=\"" + n + "\">"
      case None => "<object class=\"" + className + "\">";
    var properties := "";
    var children := "";
    for k := 0 to |o.children|
      invariant properties == PropertiesXml(o.children[..k])
      invariant children == ChildElementsXml(o.children[..k])
    {
      var child := o.children[k];
      assert o.children[..k + 1][..k] == o.children[..k];
      if child.PropertyEntry? {
        assert children == children + "";
        properties := properties + child.prop.Xml();
      } else {
        assert properties == properties + "";
        children := children + ("<child>" + child.Xml() + "</child>");
        assert ChildPart(child) == "<child>" + child.Xml() + "</child>";
      }
    }
    assert o.children[..|o.children|] == o.children;
    s := beginning + properties + children + "</object>";
    ObjectXmlParts(o);
  }

  /** `filter_entries`: every entry is offered to `filter` in turn. */
  method FilterEntries<F>(entries: seq<Entry>, filter: Entry -> Option<F>) returns (filtered: seq<F>)
    ensures filtered == Filtered(entries, filter)
    decreases entries, 1
  {
    filtered := [];
    for k := 0 to |entries|
      invariant filtered == Filtered(entries[..k], filter)
    {
      assert entries[..k + 1][..k] == entries[..k];
      var found := FilterEntry(entries[k], filter);
      filtered := filtered + found;
    }
    assert entries[..|entries|] == entries;
  }

  /** The body of the loop of `filter_entries` for one entry: the entry itself, then an
      object's children, or a property's object and that object's children. */
  method FilterEntry<F>(entry: Entry, filter: Entry -> Option<F>) returns (filtered: seq<F>)
    ensures filtered == FilteredOne(entry, filter)
    decreases entry, 0
  {
    filtered := [];
    var found := filter(entry);
    if found.Some? {
      filtered := filtered + [found.value];
    }
    assert filtered == Found(found);
    match entry {
      case ObjectEntry(obj) =>
        var nested := FilterEntries(obj.children, filter);
        filtered := filtered + nested;
        assert FilteredOne(entry, filter) == Found(found) + nested;
      case PropertyEntry(prop) =>
        if prop.value.ObjectValue? {
          var obj := prop.value.obj;
          var objFound := filter(ObjectEntry(obj));
          ghost var before := filtered;
          if objFound.Some? {
            filtered := filtered + [objFound.value];
          }
          assert filtered == before + Found(objFound);
          var nested := FilterEntries(obj.children, filter);
          filtered := filtered + nested;
          assert FilteredOne(entry, filter) == Found(found) + (Found(objFound) + nested);
          assert filtered == Found(found) + (Found(objFound) + nested);
        } else {
          assert filtered == filtered + [];
        }
      case RootEntry(_) =>
        assert filtered == filtered + [];
    }
  }

  /** `Root::filter`: the `Some` answers of `filter` in the order `PreOrder` lists. */
  method Filter<F>(root: Root, filter: Entry -> Option<F>) returns (r: seq<F>)
    ensures r == FilterMap(PreOrder(root.children), filter)
  {
    r := FilterEntries(root.children, filter);
    FilteredIsFilterMap(root.children, filter);
  }

  /** `Root::get_named_objects`: every object that has a name, with that name, in the
      order `filter` reaches them, objects held by properties included. */
  method GetNamedObjects(root: Root) returns (r: seq<(string, Object)>)
    ensures r == FilterMap(PreOrder(root.children), NamedObject)
    ensures forall n, o :: (n, o) in r <==> ObjectEntry(o) in PreOrder(root.children) && o.name == Some(n)
  {
    r := Filter(root, NamedObject);
    NamedObjectsExact(PreOrder(root.children));
  }
}
