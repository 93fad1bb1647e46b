/** Properties of the syntax tree and its XML: what `Requirement::new` recognises, how
    `Object::get_xml` orders its children, how `add_child` and `require` change the
    document, and what `Root::filter` visits. */
module AstProps {

  import opened Wrappers
  import opened Ast

  /** A requirement built from a `using` line produces a tag exactly when its library is
      not libadwaita; gtk under any recognised spelling is written as `gtk`, any other
      library verbatim. */
  lemma NewRequirementXml(lib: string, version: string)
    ensures NewRequirement(lib, version).Xml().None? <==> lib in AdwNames
    ensures lib in GtkNames ==> NewRequirement(lib, version).Xml() == Some(RequiresTag("gtk", version))
    ensures lib !in GtkNames && lib !in AdwNames ==>
              NewRequirement(lib, version).Xml() == Some(RequiresTag(lib, version))
  {
  }

  /** The match is case-sensitive: a spelling outside the lists is another library. */
  lemma NewRequirementIsExact()
    ensures NewRequirement("gTK", "4.0") == Other("gTK", "4.0")
    ensures NewRequirement("Libadwaita", "1") == Libadwaita("1")
    ensures NewRequirement("LIBADWAITA", "1") == Other("LIBADWAITA", "1")
  {
  }

  // ---------------------------------------------------------------------------
  // The shape of each element

  lemma {:induction false} AppendEncloses(open: string, mid: string, close: string)
    ensures Encloses(open + mid + close, open, close)
  {
    var s := open + mid + close;
    assert s[..|open|] == open;
    assert s[|s| - |close|..] == close;
  }

  lemma {:induction false} AppendTwoEncloses(open: string, left: string, right: string, close: string)
    ensures Encloses(open + left + right + close, open, close)
  {
    var s := open + left + right + close;
    assert s[..|open|] == open;
    assert s[|s| - |close|..] == close;
  }

  /** A property element: `<property name="…">`, the value, `</property>`. */
  lemma PropertyXmlEncloses(p: Property)
    ensures Encloses(p.Xml(), PropertyOpen(p.name), "</property>")
    ensures p.value.TextValue? ==> p.Xml() == PropertyOpen(p.name) + p.value.text + "</property>"
    ensures p.value.ObjectValue? ==> p.Xml() == PropertyOpen(p.name) + p.value.obj.Xml() + "</property>"
  {
    AppendEncloses(PropertyOpen(p.name), if p.value.TextValue? then p.value.text else p.value.obj.Xml(), "</property>");
  }

  /** An object element: its opening tag first, `</object>` last. */
  lemma ObjectXmlEncloses(o: Object)
    ensures Encloses(o.Xml(), OpenTag(o.className, o.name), "</object>")
  {
    AppendTwoEncloses(OpenTag(o.className, o.name), PropertiesXml(o.children), ChildElementsXml(o.children), "</object>");
  }

  /** The document: the XML declaration and `<interface>` first, `</interface>` last. */
  lemma RootXmlEncloses(r: Root)
    ensures Encloses(r.Xml(), XmlHeader, "</interface>")
  {
    AppendTwoEncloses(XmlHeader, RequirementsXml(r.requirements), EntriesXml(r.children), "</interface>");
  }

  /** The opening tag carries an `id` attribute exactly when the object has a name. */
  lemma OpenTagId(className: string, name: Option<string>)
    ensures name.None? ==> OpenTag(className, name) == "<object class=\"" + RemoveDots(className) + "\">"
    ensures name.Some? ==> OpenTag(className, name)
                           == "<object class=\"" + RemoveDots(className) + "\" id=\"" + name.value + "\">"
  {
  }

  // ---------------------------------------------------------------------------
  // Removing the dots of a class name

  lemma {:induction false} RemoveDotsAppend(a: string, b: string)
    ensures RemoveDots(a + b) == RemoveDots(a) + RemoveDots(b)
    decreases |b|
  {
    if b == [] {
      assert a + b == a;
    } else {
      var b' := b[..|b| - 1];
      assert (a + b)[..|a + b| - 1] == a + b';
      RemoveDotsAppend(a, b');
    }
  }

  /** A name without dots is written unchanged. */
  lemma {:induction false} RemoveDotsNoDots(s: string)
    requires '.' !in s
    ensures RemoveDots(s) == s
    decreases |s|
  {
    if s != [] {
      var s' := s[..|s| - 1];
      assert s == s' + [s[|s| - 1]];
      RemoveDotsNoDots(s');
    }
  }

  /** Removing the dots twice is removing them once, and it changes every dotted name. */
  lemma RemoveDotsIdempotent(s: string)
    ensures RemoveDots(RemoveDots(s)) == RemoveDots(s)
    ensures RemoveDots(s) == s <==> '.' !in s
  {
    RemoveDotsNoDots(RemoveDots(s));
    if '.' !in s {
      RemoveDotsNoDots(s);
    }
  }

  /** Removing the dots deletes exactly the dots: every other character keeps its count. */
  lemma {:induction false} RemoveDotsCounts(s: string)
    ensures multiset(RemoveDots(s)) == multiset(s)['.' := 0]
    decreases |s|
  {
    if s != [] {
      var s' := s[..|s| - 1];
      assert s == s' + [s[|s| - 1]];
      RemoveDotsCounts(s');
    }
  }

  /** A dotted name `c.d` is written as `cd`. */
  lemma RemoveDotsJoin(c: string, d: string)
    requires '.' !in c && '.' !in d
    ensures RemoveDots(c + "." + d) == c + d
  {
    RemoveDotsAppend(c + ".", d);
    RemoveDotsAppend(c, ".");
    RemoveDotsNoDots(c);
    RemoveDotsNoDots(d);
    assert "."[..0] == [];
    assert RemoveDots(".") == [];
    assert RemoveDots(c + ".") == c + [] == c;
  }

  /** `Gtk.Button` is written as the class `GtkButton`. */
  lemma GtkButtonClass()
    ensures RemoveDots("Gtk.Button") == "GtkButton"
  {
    RemoveDotsJoin("Gtk", "Button");
    assert "Gtk" + "." + "Button" == "Gtk.Button";
    assert "Gtk" + "Button" == "GtkButton";
  }

  // ---------------------------------------------------------------------------
  // Properties before children

  /** The property children of `es`, in order. */
  function Properties(es: seq<Entry>): seq<Entry>
  {
    if es == [] then []
    else Properties(es[..|es| - 1]) + (if es[|es| - 1].PropertyEntry? then [es[|es| - 1]] else [])
  }

  /** The other children of `es`, in order. */
  function NonProperties(es: seq<Entry>): seq<Entry>
  {
    if es == [] then []
    else NonProperties(es[..|es| - 1]) + (if es[|es| - 1].PropertyEntry? then [] else [es[|es| - 1]])
  }

  /** Each entry of `es` as a `<child>` element, in order. */
  function WrappedXml(es: seq<Entry>): string {
    if es == [] then "" else WrappedXml(es[..|es| - 1]) + ChildElement(es[|es| - 1])
  }

  lemma {:induction false} EntriesXmlAppend(a: seq<Entry>, b: seq<Entry>)
    ensures EntriesXml(a + b) == EntriesXml(a) + EntriesXml(b)
    decreases |b|
  {
    if b == [] {
      assert a + b == a;
    } else {
      assert (a + b)[..|a + b| - 1] == a + b[..|b| - 1];
      EntriesXmlAppend(a, b[..|b| - 1]);
    }
  }

  lemma {:induction false} WrappedXmlAppend(a: seq<Entry>, b: seq<Entry>)
    ensures WrappedXml(a + b) == WrappedXml(a) + WrappedXml(b)
    decreases |b|
  {
    if b == [] {
      assert a + b == a;
    } else {
      assert (a + b)[..|a + b| - 1] == a + b[..|b| - 1];
      WrappedXmlAppend(a, b[..|b| - 1]);
    }
  }

  /** The `properties` string is the XML of the property children in their order. */
  lemma {:induction false} PropertiesXmlIsProperties(es: seq<Entry>)
    ensures PropertiesXml(es) == EntriesXml(Properties(es))
    decreases |es|
  {
    if es != [] {
      var es' := es[..|es| - 1];
      var e := es[|es| - 1];
      PropertiesXmlIsProperties(es');
      if e.PropertyEntry? {
        EntriesXmlAppend(Properties(es'), [e]);
        assert [e][..0] == [];
        assert EntriesXml([e]) == "" + e.Xml() == e.Xml();
        assert Properties(es) == Properties(es') + [e];
        assert PropertiesXml(es) == PropertiesXml(es') + e.prop.Xml();
      } else {
        assert PropertiesXml(es) == PropertiesXml(es') + "" == PropertiesXml(es');
        assert Properties(es) == Properties(es') + [] == Properties(es');
      }
    }
  }

  /** The `children` string is every other child wrapped in `<child>`, in their order. */
  lemma {:induction false} ChildElementsXmlIsNonProperties(es: seq<Entry>)
    ensures ChildElementsXml(es) == WrappedXml(NonProperties(es))
    decreases |es|
  {
    if es != [] {
      var es' := es[..|es| - 1];
      var e := es[|es| - 1];
      ChildElementsXmlIsNonProperties(es');
      if !e.PropertyEntry? {
        WrappedXmlAppend(NonProperties(es'), [e]);
        assert [e][..0] == [];
        assert WrappedXml([e]) == "" + ChildElement(e) == ChildElement(e);
        assert NonProperties(es) == NonProperties(es') + [e];
        assert ChildElementsXml(es) == ChildElementsXml(es') + ChildElement(e);
      } else {
        assert ChildElementsXml(es) == ChildElementsXml(es') + "" == ChildElementsXml(es');
        assert NonProperties(es) == NonProperties(es') + [] == NonProperties(es');
      }
    }
  }

  /** `Object::get_xml` puts all property children first and all other children after
      them, each group in document order. */
  lemma ObjectXmlParts(o: Object)
    ensures o.Xml() == OpenTag(o.className, o.name) + EntriesXml(Properties(o.children))
                       + WrappedXml(NonProperties(o.children)) + "</object>"
  {
    PropertiesXmlIsProperties(o.children);
    ChildElementsXmlIsNonProperties(o.children);
  }

  lemma {:induction false} PropertiesXmlAppend(a: seq<Entry>, b: seq<Entry>)
    ensures PropertiesXml(a + b) == PropertiesXml(a) + PropertiesXml(b)
    decreases |b|
  {
    if b == [] {
      assert a + b == a;
    } else {
      assert (a + b)[..|a + b| - 1] == a + b[..|b| - 1];
      PropertiesXmlAppend(a, b[..|b| - 1]);
    }
  }

  lemma {:induction false} ChildElementsXmlAppend(a: seq<Entry>, b: seq<Entry>)
    ensures ChildElementsXml(a + b) == ChildElementsXml(a) + ChildElementsXml(b)
    decreases |b|
  {
    if b == [] {
      assert a + b == a;
    } else {
      assert (a + b)[..|a + b| - 1] == a + b[..|b| - 1];
      ChildElementsXmlAppend(a, b[..|b| - 1]);
    }
  }

  /** The two orders of a property and a non-property child give the same parts. */
  lemma SwapPair(x: Entry, p: Entry)
    requires p.PropertyEntry? && !x.PropertyEntry?
    ensures PropertiesXml([x, p]) == PropertiesXml([p, x])
    ensures ChildElementsXml([x, p]) == ChildElementsXml([p, x])
  {
    assert [x, p][..1] == [x] && [p, x][..1] == [p];
    assert [x][..0] == [] && [p][..0] == [];
  }

  /** Moving a property past an adjacent non-property child does not change the XML. */
  lemma SwapPropertyPastChild(o: Object, a: seq<Entry>, x: Entry, p: Entry, b: seq<Entry>)
    requires p.PropertyEntry? && !x.PropertyEntry?
    requires o.children == a + [x, p] + b
    ensures o.Xml() == o.(children := a + [p, x] + b).Xml()
  {
    var o' := o.(children := a + [p, x] + b);
    SwapPair(x, p);
    PropertiesXmlAppend(a + [x, p], b);
    PropertiesXmlAppend(a, [x, p]);
    PropertiesXmlAppend(a + [p, x], b);
    PropertiesXmlAppend(a, [p, x]);
    assert PropertiesXml(o.children) == PropertiesXml(o'.children);
    ChildElementsXmlAppend(a + [x, p], b);
    ChildElementsXmlAppend(a, [x, p]);
    ChildElementsXmlAppend(a + [p, x], b);
    ChildElementsXmlAppend(a, [p, x]);
    assert ChildElementsXml(o.children) == ChildElementsXml(o'.children);
  }

  // ---------------------------------------------------------------------------
  // The document after `add_child` and `require`

  /** `add_child` writes the new child's XML after the existing children. */
  lemma RootAddChildXml(r: Root, child: Entry)
    ensures r.AddChild(child).Xml()
            == XmlHeader + RequirementsXml(r.requirements) + (EntriesXml(r.children) + child.Xml())
               + "</interface>"
  {
    assert (r.children + [child])[..|r.children|] == r.children;
    assert EntriesXml(r.children + [child]) == EntriesXml(r.children) + child.Xml();
  }

  /** `require` writes the new requirement's tag after the existing ones, if it has one. */
  lemma RootRequireXml(r: Root, q: Requirement)
    ensures r.Require(q).Xml()
            == XmlHeader + (RequirementsXml(r.requirements) + Tag(q)) + EntriesXml(r.children) + "</interface>"
    ensures q.Libadwaita? ==> r.Require(q).Xml() == r.Xml()
  {
    assert (r.requirements + [q])[..|r.requirements|] == r.requirements;
    assert RequirementsXml(r.requirements + [q]) == RequirementsXml(r.requirements) + Tag(q);
    if q.Libadwaita? {
      assert RequirementsXml(r.requirements) + Tag(q) == RequirementsXml(r.requirements);
    }
  }

  /** `Object::add_child` of a property extends the property part of the XML. */
  lemma ObjectAddPropertyXml(o: Object, child: Entry)
    requires child.PropertyEntry?
    ensures o.AddChild(child).Xml()
            == OpenTag(o.className, o.name) + (PropertiesXml(o.children) + child.prop.Xml())
               + ChildElementsXml(o.children) + "</object>"
  {
    var cs := o.children + [child];
    assert cs[..|o.children|] == o.children && cs[|cs| - 1] == child;
    assert PropertiesXml(cs) == PropertiesXml(o.children) + child.prop.Xml();
    assert ChildElementsXml(cs) == ChildElementsXml(o.children) + "" == ChildElementsXml(o.children);
  }

  /** `Object::add_child` of any other entry extends the `<child>` part of the XML. */
  lemma ObjectAddElementXml(o: Object, child: Entry)
    requires !child.PropertyEntry?
    ensures o.AddChild(child).Xml()
            == OpenTag(o.className, o.name) + PropertiesXml(o.children)
               + (ChildElementsXml(o.children) + ChildElement(child)) + "</object>"
  {
    var cs := o.children + [child];
    assert cs[..|o.children|] == o.children && cs[|cs| - 1] == child;
    assert PropertiesXml(cs) == PropertiesXml(o.children) + "" == PropertiesXml(o.children);
    assert ChildElementsXml(cs) == ChildElementsXml(o.children) + ChildElement(child);
  }

  // ---------------------------------------------------------------------------
  // Documents from the source's test suite

  /** `using adw 1.0 using gtk 4.0`: libadwaita leaves no trace in the XML. */
  lemma UsingXml()
    ensures Root([Libadwaita("1.0"), Gtk("4.0")], []).Xml()
            == XmlHeader + RequiresTag("gtk", "4.0") + "</interface>"
  {
    var rs := [Libadwaita("1.0"), Gtk("4.0")];
    assert rs[..1] == [Libadwaita("1.0")] && rs[..1][..0] == [];
    assert RequirementsXml(rs[..1]) == "" + "";
    assert RequirementsXml(rs) == RequirementsXml(rs[..1]) + RequiresTag("gtk", "4.0");
  }

  /** `Gtk.Button {}` and `Gtk.Button button_name {}`. */
  lemma ButtonXml()
    ensures Object("Gtk.Button", None, []).Xml()
            == "<object class=\"" + "GtkButton" + "\">" + "</object>"
    ensures Object("Gtk.Button", Some("button_name"), []).Xml()
            == "<object class=\"" + "GtkButton" + "\" id=\"" + "button_name" + "\">" + "</object>"
  {
    GtkButtonClass();
    assert PropertiesXml([]) + ChildElementsXml([]) == "";
  }

  // ---------------------------------------------------------------------------
  // The traversal of `Root::filter`

  lemma {:induction false} FilterMapAppend<F>(a: seq<Entry>, b: seq<Entry>, f: Entry -> Option<F>)
    ensures FilterMap(a + b, f) == FilterMap(a, f) + FilterMap(b, f)
    decreases |a|
  {
    if a == [] {
      assert a + b == b;
    } else {
      assert (a + b)[0] == a[0] && (a + b)[1..] == a[1..] + b;
      FilterMapAppend(a[1..], b, f);
      var x := Found(f(a[0]));
      calc {
        FilterMap(a + b, f);
        x + FilterMap(a[1..] + b, f);
        x + (FilterMap(a[1..], f) + FilterMap(b, f));
        (x + FilterMap(a[1..], f)) + FilterMap(b, f);
      }
    }
  }

  lemma {:induction false} PreOrderAppend(a: seq<Entry>, e: Entry)
    ensures PreOrder(a + [e]) == PreOrder(a) + Visited(e)
    decreases |a|
  {
    if a == [] {
      assert PreOrder([e]) == Visited(e) + PreOrder([]);
    } else {
      assert (a + [e])[1..] == a[1..] + [e];
      PreOrderAppend(a[1..], e);
    }
  }

  /** `filter_entries` hands each entry to the selector in the order `PreOrder` lists them and
      keeps the `Some` results in that order: the traversal and the selection are
      independent of each other. */
  lemma {:induction false} FilteredIsFilterMap<F>(es: seq<Entry>, f: Entry -> Option<F>)
    ensures Filtered(es, f) == FilterMap(PreOrder(es), f)
    decreases es, 1
  {
    if es != [] {
      var es' := es[..|es| - 1];
      var e := es[|es| - 1];
      assert es == es' + [e];
      FilteredIsFilterMap(es', f);
      FilteredOneIsFilterMap(e, f);
      PreOrderAppend(es', e);
      FilterMapAppend(PreOrder(es'), Visited(e), f);
    }
  }

  lemma {:induction false} FilteredOneIsFilterMap<F>(e: Entry, f: Entry -> Option<F>)
    ensures FilteredOne(e, f) == FilterMap(Visited(e), f)
    decreases e, 0
  {
    assert [e][1..] == [];
    match e
    case ObjectEntry(o) =>
      FilteredIsFilterMap(o.children, f);
      FilterMapAppend([e], PreOrder(o.children), f);
    case PropertyEntry(Property(_, ObjectValue(o))) =>
      FilteredIsFilterMap(o.children, f);
      assert [ObjectEntry(o)][1..] == [];
      FilterMapAppend([ObjectEntry(o)], PreOrder(o.children), f);
      FilterMapAppend([e], [ObjectEntry(o)] + PreOrder(o.children), f);
    case _ =>
      assert Visited(e) == [e];
  }

  /** A selector that never answers leaves nothing. */
  lemma {:induction false} FilterMapNothing<F>(es: seq<Entry>, f: Entry -> Option<F>)
    requires forall e :: f(e).None?
    ensures FilterMap(es, f) == []
    decreases |es|
  {
    if es != [] {
      FilterMapNothing(es[1..], f);
    }
  }

  lemma FilteredNothing<F>(es: seq<Entry>, f: Entry -> Option<F>)
    requires forall e :: f(e).None?
    ensures Filtered(es, f) == []
  {
    FilteredIsFilterMap(es, f);
    FilterMapNothing(PreOrder(es), f);
  }

  /** The named-object selector keeps exactly the objects that have a name, paired with it. */
  lemma {:induction false} NamedObjectsExact(ts: seq<Entry>)
    ensures forall n, o :: (n, o) in FilterMap(ts, NamedObject)
                           <==> ObjectEntry(o) in ts && o.name == Some(n)
    decreases |ts|
  {
    if ts != [] {
      NamedObjectsExact(ts[1..]);
      assert ts == [ts[0]] + ts[1..];
    }
  }
}
