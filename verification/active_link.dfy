/** Active-section tracking: on each scroll, every section whose vertical
    range [top, top + height) contains the scroll offset plus 200 pixels
    re-marks the navigation links, in document order, so that only the links
    pointing at it ("#" followed by its id) are active. */
module ActiveLink {

  /** How far below the top of the viewport the probe sits. */
  const ProbeOffset := 200

  datatype Section = Section(id: string, top: int, height: int)

  predicate Contains(s: Section, y: int) {
    y >= s.top && y < s.top + s.height
  }

  /** The flags after one matching section has re-marked the links. */
  function Mark(hrefs: seq<string>, id: string): seq<bool> {
    seq(|hrefs|, j requires 0 <= j < |hrefs| => hrefs[j] == "#" + id)
  }

  /** The link flags after the sections have been scanned in order. */
  function Scan(sections: seq<Section>, hrefs: seq<string>, active: seq<bool>, y: int): (r: seq<bool>)
    requires |active| == |hrefs|
    ensures |r| == |hrefs|
    decreases |sections|
  {
    if sections == [] then active
    else
      var before := Scan(sections[..|sections| - 1], hrefs, active, y);
      var last := sections[|sections| - 1];
      if Contains(last, y) then Mark(hrefs, last.id) else before
  }

  /** When no section contains the probe, the flags are left as they were. */
  lemma {:induction false} NoSectionContains(sections: seq<Section>, hrefs: seq<string>, active: seq<bool>, y: int)
    requires |active| == |hrefs|
    requires forall k :: 0 <= k < |sections| ==> !Contains(sections[k], y)
    ensures Scan(sections, hrefs, active, y) == active
    decreases |sections|
  {
    if sections != [] {
      var init := sections[..|sections| - 1];
      assert forall k :: 0 <= k < |init| ==> init[k] == sections[k];
      NoSectionContains(init, hrefs, active, y);
    }
  }

  /** Otherwise the last containing section in document order decides: a
      link is active exactly when it points at that section. */
  lemma {:induction false} LastContainingWins(sections: seq<Section>, hrefs: seq<string>, active: seq<bool>, y: int, k: nat)
    requires |active| == |hrefs|
    requires k < |sections| && Contains(sections[k], y)
    requires forall k' :: k < k' < |sections| ==> !Contains(sections[k'], y)
    ensures var r := Scan(sections, hrefs, active, y);
      forall j :: 0 <= j < |hrefs| ==> (r[j] <==> hrefs[j] == "#" + sections[k].id)
    decreases |sections|
  {
    if k < |sections| - 1 {
      var init := sections[..|sections| - 1];
      assert forall m :: 0 <= m < |init| ==> init[m] == sections[m];
      LastContainingWins(init, hrefs, active, y, k);
    }
  }

  /** With distinct hrefs, a scroll inside some section leaves at most one
      link active, and exactly one when some link points at the section
      that decides. */
  lemma AtMostOneActive(sections: seq<Section>, hrefs: seq<string>, active: seq<bool>, y: int, k: nat)
    requires |active| == |hrefs|
    requires forall a, b :: 0 <= a < b < |hrefs| ==> hrefs[a] != hrefs[b]
    requires k < |sections| && Contains(sections[k], y)
    requires forall k' :: k < k' < |sections| ==> !Contains(sections[k'], y)
    ensures var r := Scan(sections, hrefs, active, y);
      forall a, b :: 0 <= a < |r| && 0 <= b < |r| && r[a] && r[b] ==> a == b
    ensures var r := Scan(sections, hrefs, active, y);
      (exists j :: 0 <= j < |hrefs| && hrefs[j] == "#" + sections[k].id) ==>
        exists j :: 0 <= j < |r| && r[j]
  {
    LastContainingWins(sections, hrefs, active, y, k);
  }

  /** setActiveNavLink: the links' active flags are updated in place. */
  method SetActiveNavLink(sections: seq<Section>, hrefs: seq<string>, active: array<bool>, windowScrollY: int)
    requires active.Length == |hrefs|
    modifies active
    ensures active[..] == Scan(sections, hrefs, old(active[..]), windowScrollY + ProbeOffset)
  {
    var scrollY := windowScrollY + ProbeOffset;
    var i := 0;
    while i < |sections|
      invariant 0 <= i <= |sections|
      invariant active[..] == Scan(sections[..i], hrefs, old(active[..]), scrollY)
    {
      var section := sections[i];
      if scrollY >= section.top && scrollY < section.top + section.height {
        var j := 0;
        while j < active.Length
          invariant 0 <= j <= active.Length
          invariant forall m :: 0 <= m < j ==> active[m] == (hrefs[m] == "#" + section.id)
        {
          active[j] := false;
          if hrefs[j] == "#" + section.id {
            active[j] := true;
          }
          j := j + 1;
        }
        assert active[..] == Mark(hrefs, section.id);
      }
      assert sections[..i + 1][..i] == sections[..i];
      i := i + 1;
    }
    assert sections[..|sections|] == sections;
  }
}
