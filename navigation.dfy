/** Highlighting of the navigation link that belongs to the section in view. */
module Navigation {

  datatype Option<T> = None | Some(value: T)

  /** A `.nav-link` element: its `data-section` attribute (absent when the
      element has none) and whether its class list holds `active`. */
  datatype NavLink = NavLink(section: Option<string>, active: bool)

  /** One link after the update: `active` exactly when its section is the
      current one. */
  function Marked(link: NavLink, currentSection: string): (r: NavLink)
    ensures r.section == link.section
    ensures r.active <==> link.section == Some(currentSection)
  {
    link.(active := link.section == Some(currentSection))
  }

  /** All links after the update, in document order. */
  function MarkActive(links: seq<NavLink>, currentSection: string): (r: seq<NavLink>)
    ensures |r| == |links|
  {
    if links == [] then []
    else [Marked(links[0], currentSection)] + MarkActive(links[1..], currentSection)
  }

  /** After the update a link is active if and only if its `data-section`
      is the current section; no link changes its section. */
  lemma {:induction false} MarkActiveAt(links: seq<NavLink>, currentSection: string, i: nat)
    requires i < |links|
    ensures MarkActive(links, currentSection)[i].section == links[i].section
    ensures MarkActive(links, currentSection)[i].active <==> links[i].section == Some(currentSection)
  {
    if i > 0 {
      MarkActiveAt(links[1..], currentSection, i - 1);
    }
  }

  /** Updating twice for the same section changes nothing the second time. */
  lemma {:induction false} MarkActiveIdempotent(links: seq<NavLink>, currentSection: string)
    ensures MarkActive(MarkActive(links, currentSection), currentSection)
      == MarkActive(links, currentSection)
  {
    if links != [] {
      MarkActiveIdempotent(links[1..], currentSection);
    }
  }

  /** The update forgets which links were active before it: two link lists
      that differ only in `active` flags end up the same. */
  lemma {:induction false} MarkActiveForgetsPrevious(a: seq<NavLink>, b: seq<NavLink>, currentSection: string)
    requires |a| == |b|
    requires forall i :: 0 <= i < |a| ==> a[i].section == b[i].section
    ensures MarkActive(a, currentSection) == MarkActive(b, currentSection)
  {
    if a != [] {
      assert a[0].section == b[0].section;
      MarkActiveForgetsPrevious(a[1..], b[1..], currentSection);
    }
  }

  /** At most one link is active when no two links name the same section. */
  lemma AtMostOneActive(links: seq<NavLink>, currentSection: string, i: nat, j: nat)
    requires forall p, q :: 0 <= p < q < |links| && links[p].section.Some? ==> links[p].section != links[q].section
    requires i < |links| && j < |links|
    requires MarkActive(links, currentSection)[i].active && MarkActive(links, currentSection)[j].active
    ensures i == j
  {
    MarkActiveAt(links, currentSection, i);
    MarkActiveAt(links, currentSection, j);
  }

  /** `updateActiveNavLink`: for each link in turn, remove `active`, then
      add it back when the link's `data-section` is the current section. */
  method UpdateActiveNavLink(links: array<NavLink>, currentSection: string)
    modifies links
    ensures links[..] == MarkActive(old(links[..]), currentSection)
    ensures forall i :: 0 <= i < links.Length ==>
      links[i].section == old(links[i].section)
      && (links[i].active <==> links[i].section == Some(currentSection))
  {
    for k := 0 to links.Length
      invariant forall i :: 0 <= i < k ==> links[i] == Marked(old(links[i]), currentSection)
      invariant forall i :: k <= i < links.Length ==> links[i] == old(links[i])
    {
      links[k] := links[k].(active := false);
      if links[k].section == Some(currentSection) {
        links[k] := links[k].(active := true);
      }
    }
    ghost var before := old(links[..]);
    forall i | 0 <= i < links.Length
      ensures links[..][i] == MarkActive(before, currentSection)[i]
    {
      MarkActiveAt(before, currentSection, i);
    }
  }
}
