/** What the counters of a page map mean: each one counts the marked tiles on its
    page, or holds the mask once every tile on the page is marked. */
module PageCounts {
  import opened Common
  import opened Tiles

  ghost predicate PageOk(c: nat, mask: nat, tiles: set<nat>, marked: set<nat>) {
    if c == mask then tiles <= marked else c == |tiles * marked|
  }

  /** The counters of one region, the first of them for page `off`. */
  ghost predicate RowOk(row: seq<nat>, mask: nat, p: nat, b: nat, off: nat, marked: set<nat>)
    requires b > 0
  {
    forall j :: 0 <= j < |row| ==> PageOk(row[j], mask, TilesOn(p, b, off + j), marked)
  }

  lemma {:induction false} SubsetSize(a: set<nat>, b: set<nat>)
    requires a <= b
    ensures |a| <= |b|
    ensures |a| == |b| ==> a == b
  {
    assert b == a + (b - a);
    assert |b| == |a| + |b - a|;
  }

  /** Counting `n` more marked tiles keeps the meaning, and cannot overflow. */
  lemma {:induction false} CountMore(c: nat, mask: nat, tiles: set<nat>, marked: set<nat>, more: set<nat>)
    requires PageOk(c, mask, tiles, marked)
    requires more !! marked && |tiles| <= mask
    ensures tiles * more != {} ==> c < mask && c + |tiles * more| <= mask
    ensures PageOk(c + |tiles * more|, mask, tiles, marked + more)
  {
    var old', new', all := tiles * marked, tiles * more, tiles * (marked + more);
    assert all == old' + new' && old' !! new';
    assert |all| == |old'| + |new'|;
    SubsetSize(all, tiles);
    if new' == {} {
      assert all == old';
    } else {
      assert exists k :: k in new' && k !in marked;
    }
  }

  /** A counter allows release exactly when every tile on its page is marked. */
  lemma {:induction false} ReleasableIffMarked(c: nat, mask: nat, tiles: set<nat>, marked: set<nat>)
    requires PageOk(c, mask, tiles, marked) && |tiles| <= mask
    ensures c == mask || c == |tiles| <==> tiles <= marked
  {
    SubsetSize(tiles * marked, tiles);
    if tiles <= marked {
      assert tiles * marked == tiles;
    }
  }

  lemma {:induction false} TilesFit(p: nat, b: nat, j: nat, mask: nat)
    requires p > 0 && b > 0 && ExpectedCount(p, b).max <= mask
    ensures 0 < |TilesOn(p, b, j)| <= mask
  {
    TileCountPositive(p, b, j);
    ExpectedCountCorrect(p, b, j);
  }

  /** The two ways in which marking the tiles `more` may change a counter. */
  ghost predicate PageMarked(c: nat, c': nat, mask: nat, tiles: set<nat>, more: set<nat>) {
    c' == c + |tiles * more| || (c' == mask && tiles <= more)
  }

  lemma {:induction false} CountMarked(c: nat, c': nat, mask: nat, tiles: set<nat>, marked: set<nat>, more: set<nat>)
    requires PageOk(c, mask, tiles, marked) && PageMarked(c, c', mask, tiles, more)
    requires more !! marked && 0 < |tiles| <= mask
    ensures PageOk(c', mask, tiles, marked + more)
  {
    CountMore(c, mask, tiles, marked, more);
    if c' != c + |tiles * more| {
      assert tiles <= marked + more;
    }
  }

  lemma {:induction false} RowMarked(row: seq<nat>, row': seq<nat>, mask: nat, p: nat, b: nat, off: nat,
                                     marked: set<nat>, more: set<nat>)
    requires p > 0 && b > 0 && |row| == |row'| && more !! marked
    requires RowOk(row, mask, p, b, off, marked)
    requires ExpectedCount(p, b).max <= mask
    requires forall j :: 0 <= j < |row| ==> PageMarked(row[j], row'[j], mask, TilesOn(p, b, off + j), more)
    ensures RowOk(row', mask, p, b, off, marked + more)
  {
    hide PageOk, PageMarked, TilesOn, ExpectedCount;
    forall j | 0 <= j < |row'|
      ensures PageOk(row'[j], mask, TilesOn(p, b, off + j), marked + more)
    {
      assert PageMarked(row[j], row'[j], mask, TilesOn(p, b, off + j), more);
      TilesFit(p, b, off + j, mask);
      CountMarked(row[j], row'[j], mask, TilesOn(p, b, off + j), marked, more);
    }
  }

  /** A zeroed row says that nothing is marked. */
  lemma {:induction false} ZeroRowOk(row: seq<nat>, mask: nat, p: nat, b: nat, off: nat)
    requires b > 0 && mask > 0
    requires forall j :: 0 <= j < |row| ==> row[j] == 0
    ensures RowOk(row, mask, p, b, off, {})
  {
    forall j | 0 <= j < |row|
      ensures PageOk(row[j], mask, TilesOn(p, b, off + j), {})
    {
      assert TilesOn(p, b, off + j) * {} == {};
    }
  }

  /** The counters of all regions, `n` pages from page `off` in each. */
  ghost predicate RowsOk(counters: seq<seq<nat>>, mask: nat, p: nat, b: nat, off: nat, n: nat, marked: seq<set<nat>>)
    requires b > 0
  {
    && |counters| == |marked|
    && forall r :: 0 <= r < |counters| ==> |counters[r]| == n && RowOk(counters[r], mask, p, b, off, marked[r])
  }

  lemma {:induction false} RowsOkAt(counters: seq<seq<nat>>, mask: nat, p: nat, b: nat, off: nat, n: nat,
                                    marked: seq<set<nat>>, r: nat)
    requires b > 0 && RowsOk(counters, mask, p, b, off, n, marked) && r < |marked|
    ensures |counters| == |marked| && |counters[r]| == n
    ensures RowOk(counters[r], mask, p, b, off, marked[r])
  {
  }

  lemma {:induction false} RowsOkUpdate(counters: seq<seq<nat>>, mask: nat, p: nat, b: nat, off: nat, n: nat,
                                        marked: seq<set<nat>>, r: nat, row: seq<nat>, m: set<nat>)
    requires b > 0 && RowsOk(counters, mask, p, b, off, n, marked) && r < |marked|
    requires |row| == n && RowOk(row, mask, p, b, off, m)
    ensures |counters| == |marked|
    ensures RowsOk(counters[r := row], mask, p, b, off, n, marked[r := m])
  {
  }
}
