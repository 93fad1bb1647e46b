/** `Tree` (src/ast/tree.rs): the document the parser builds, one `Root` updated in place. */
module Trees {

  import opened Ast
  import AstProps

  class Tree {
    var root: Root

    /** `Tree::new`: no requirements and no children. */
    constructor ()
      ensures root.requirements == [] && root.children == []
    {
      root := Root([], []);
    }

    /** `Tree::add_child`: the child goes at the end; the requirements stay. */
    method AddChild(child: Entry)
      modifies this
      ensures root.children == old(root.children) + [child]
      ensures root.requirements == old(root.requirements)
    {
      root := root.AddChild(child);
    }

    /** `Tree::require`: the requirement goes at the end; the children stay. */
    method Require(requirement: Requirement)
      modifies this
      ensures root.requirements == old(root.requirements) + [requirement]
      ensures root.children == old(root.children)
    {
      root := root.Require(requirement);
    }

    /** `Tree::get_xml`: the XML of the root, a complete `<interface>` document. */
    function GetXml(): (s: string)
      reads this
      ensures s == root.Xml()
      ensures Encloses(s, XmlHeader, "</interface>")
    {
      AstProps.RootXmlEncloses(root);
      root.Xml()
    }
  }
}
