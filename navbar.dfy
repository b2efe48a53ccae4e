/**
 * The navigation bar: its links, the scroll handler that decides whether the bar is in its
 * scrolled style and which link is active (a scroll spy over the home page's sections), and
 * the active-link test the links are rendered with.
 */
module Navbar {
  import opened JsText

  datatype NavLink = NavLink(name: JsString, path: JsString)

  const NavLinks: seq<NavLink> := [
    NavLink(Str("Home"), Str("/")),
    NavLink(Str("About"), Str("/#about")),
    NavLink(Str("Services"), Str("/#services")),
    NavLink(Str("Contact"), Str("/contact"))
  ]

  /** The home page's section ids the scroll spy checks, in this order. */
  const SpySections: seq<JsString> := [Str("about"), Str("services")]

  const HomePath: JsString := Str("/")
  const ContactPath: JsString := Str("/contact")
  const HomeName: JsString := Str("Home")

  /** The viewport line a section must straddle to count as being read. */
  const SpyLine: int := 150

  /** The bar takes its scrolled style once the page is scrolled past this offset. */
  const ScrollThreshold: int := 50

  /** The top and bottom getBoundingClientRect reports for a section, in whole pixels. */
  datatype Rect = Rect(top: int, bottom: int)

  /** The page's sections by id; an id that is absent is a section getElementById does not find. */
  type Sections = map<JsString, Rect>

  /** toUpperCase on one code unit, for the ASCII letters the section ids are made of. */
  function ToUpperAscii(u: CodeUnit): CodeUnit
  {
    if 0x61 <= u <= 0x7A then u - 0x20 else u
  }

  /** `id.charAt(0).toUpperCase() + id.slice(1)` */
  function Capitalize(id: JsString): JsString
  {
    if id == [] then [] else [ToUpperAscii(id[0])] + id[1..]
  }

  /** A section is being read when it exists and straddles the spy line, edges included. */
  predicate Qualifies(sections: Sections, id: JsString)
  {
    id in sections && sections[id].top <= SpyLine && sections[id].bottom >= SpyLine
  }

  /**
   * The scroll-spy rule: the last id in `ids` that qualifies, capitalised, names the active
   * section; when none qualifies it is "Home".
   */
  function LastQualifying(ids: seq<JsString>, sections: Sections): JsString
  {
    if ids == [] then HomeName
    else if Qualifies(sections, ids[|ids| - 1]) then Capitalize(ids[|ids| - 1])
    else LastQualifying(ids[..|ids| - 1], sections)
  }

  /** The scan of handleScroll: each qualifying section overwrites what an earlier one chose. */
  method ScrollSpy(ids: seq<JsString>, sections: Sections) returns (current: JsString)
    ensures current == LastQualifying(ids, sections)
  {
    current := HomeName;
    for i := 0 to |ids|
      invariant current == LastQualifying(ids[..i], sections)
    {
      var id := ids[i];
      assert ids[..i + 1][..i] == ids[..i];
      if id in sections {
        var rect := sections[id];
        if rect.top <= SpyLine && rect.bottom >= SpyLine {
          current := Capitalize(id);
        }
      }
    }
    assert ids[..|ids|] == ids;
  }

  /** The active section handleScroll settles on for a pathname. */
  function ActiveSection(pathname: JsString, sections: Sections): JsString
  {
    if pathname == HomePath then LastQualifying(SpySections, sections)
    else if pathname == ContactPath then Str("Contact")
    else []
  }

  /** The Navbar component's state that the scroll handler writes (useState). */
  class NavbarState {
    var isScrolled: bool
    var activeSection: JsString

    /** The initial state: not scrolled, "Home" active. */
    constructor ()
      ensures !isScrolled && activeSection == HomeName
    {
      isScrolled := false;
      activeSection := HomeName;
    }

    /** handleScroll, with the window's scroll offset and the sections' geometry as inputs. */
    method HandleScroll(pathname: JsString, scrollY: int, sections: Sections)
      modifies this
      ensures isScrolled <==> scrollY > ScrollThreshold
      ensures activeSection == ActiveSection(pathname, sections)
    {
      isScrolled := scrollY > ScrollThreshold;
      if pathname == HomePath {
        var current := ScrollSpy(SpySections, sections);
        activeSection := current;
      } else if pathname == ContactPath {
        activeSection := Str("Contact");
      } else {
        activeSection := [];
      }
    }

    /** isActiveLink */
    predicate IsActiveLink(name: JsString)
      reads this
    {
      activeSection == name
    }
  }

  // ---------------------------------------------------------------------------------
  // Lemmas

  /**
   * The rule in closed form: with no qualifying section the result is "Home"; otherwise it is
   * the capitalised id of the last qualifying one, so later sections win over earlier ones.
   */
  lemma {:induction false} LastQualifyingRule(ids: seq<JsString>, sections: Sections)
    ensures (forall i | 0 <= i < |ids| :: !Qualifies(sections, ids[i])) ==>
              LastQualifying(ids, sections) == HomeName
    ensures forall k | 0 <= k < |ids| && Qualifies(sections, ids[k]) ::
              (forall j | k < j < |ids| :: !Qualifies(sections, ids[j])) ==>
                LastQualifying(ids, sections) == Capitalize(ids[k])
  {
    if ids != [] {
      var init := ids[..|ids| - 1];
      LastQualifyingRule(init, sections);
      assert forall i | 0 <= i < |init| :: init[i] == ids[i];
    }
  }

  lemma CapitalizedSectionsNameLinks()
    ensures Capitalize(SpySections[0]) == Str("About") == NavLinks[1].name
    ensures Capitalize(SpySections[1]) == Str("Services") == NavLinks[2].name
  {
    assert Capitalize(SpySections[0]) == Str("About");
    assert Capitalize(SpySections[1]) == Str("Services");
  }

  /**
   * On the home page "services" wins when it qualifies, then "about", and otherwise "Home";
   * a section that is absent never qualifies.
   */
  lemma HomePageScrollSpy(sections: Sections)
    ensures ActiveSection(HomePath, sections) ==
      if Qualifies(sections, Str("services")) then Str("Services")
      else if Qualifies(sections, Str("about")) then Str("About")
      else Str("Home")
  {
    CapitalizedSectionsNameLinks();
    var about := SpySections[..1];
    assert about == [Str("about")];
    assert LastQualifying(SpySections, sections)
           == if Qualifies(sections, Str("services")) then Str("Services") else LastQualifying(about, sections);
    assert about[..0] == [];
    assert LastQualifying(about, sections)
           == if Qualifies(sections, Str("about")) then Str("About") else LastQualifying([], sections);
  }

  /** The link names are distinct and none is empty. */
  lemma NavLinkNamesDistinct()
    ensures forall i, j | 0 <= i < |NavLinks| && 0 <= j < |NavLinks| ::
              NavLinks[i].name == NavLinks[j].name ==> i == j
    ensures forall i | 0 <= i < |NavLinks| :: NavLinks[i].name != []
  {
    forall i, j | 0 <= i < |NavLinks| && 0 <= j < |NavLinks| && NavLinks[i].name == NavLinks[j].name
      ensures i == j
    {
      assert |NavLinks[i].name| == |NavLinks[j].name|;
    }
  }

  /**
   * The active section is always the name of a link or empty, and it names a link exactly on
   * the home page and on the contact page.
   */
  lemma ActiveSectionNamesLink(pathname: JsString, sections: Sections)
    ensures ActiveSection(pathname, sections) == [] <==> pathname != HomePath && pathname != ContactPath
    ensures ActiveSection(pathname, sections) != [] ==>
              exists i | 0 <= i < |NavLinks| :: NavLinks[i].name == ActiveSection(pathname, sections)
    ensures pathname == ContactPath ==> ActiveSection(pathname, sections) == NavLinks[3].name
  {
    NavLinkNamesDistinct();
    var r := ActiveSection(pathname, sections);
    if pathname == HomePath {
      HomePageScrollSpy(sections);
      CapitalizedSectionsNameLinks();
      var i := if Qualifies(sections, Str("services")) then 2
               else if Qualifies(sections, Str("about")) then 1 else 0;
      assert NavLinks[i].name == r;
    } else if pathname == ContactPath {
      assert NavLinks[3].name == r;
    }
  }

  /** At most one link is active, and none while the active section is empty. */
  lemma AtMostOneActiveLink(nav: NavbarState)
    ensures forall i, j | 0 <= i < |NavLinks| && 0 <= j < |NavLinks| ::
              nav.IsActiveLink(NavLinks[i].name) && nav.IsActiveLink(NavLinks[j].name) ==> i == j
    ensures nav.activeSection == [] ==> forall i | 0 <= i < |NavLinks| :: !nav.IsActiveLink(NavLinks[i].name)
  {
    NavLinkNamesDistinct();
  }
}
