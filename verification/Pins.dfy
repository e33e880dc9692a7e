/** Outstanding page references and the frames they occupy. */
module Pins {
  import opened Base

  function HeldPages(pins: multiset<PageId>): set<PageId> {
    set id | id in pins
  }

  /** One more pin occupies at most one more frame. */
  lemma HeldGrows(pins: multiset<PageId>, id: PageId)
    ensures |HeldPages(pins + multiset{id})| <= |HeldPages(pins)| + 1
    ensures id in pins ==> HeldPages(pins + multiset{id}) == HeldPages(pins)
  {
    assert HeldPages(pins + multiset{id}) == HeldPages(pins) + {id};
  }
}
