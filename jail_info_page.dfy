/** The computations of public/jail-info.js: the highlighted jail card, the per-block cell
    tallies written onto the fetched blocks, the status colour of a block, the in-place sort
    of the block list, and the cells listed for one block. */
module JailInfoPage {
  import opened Common

  // ---------------------------------------------------------------------------------
  // `selectJail`

  /** A jail card on the page: the jail it shows and whether it is highlighted. */
  datatype JailCard = JailCard(jailId: string, selected: bool)

  /** The cards after selecting `jailId`: highlighted exactly when they show that jail. */
  function Highlight(cards: seq<JailCard>, jailId: string): (r: seq<JailCard>)
    ensures |r| == |cards|
    ensures forall i :: 0 <= i < |cards| ==> r[i].jailId == cards[i].jailId && (r[i].selected <==> cards[i].jailId == jailId)
  {
    seq(|cards|, i requires 0 <= i < |cards| => cards[i].(selected := cards[i].jailId == jailId))
  }

  /** `selectJail`'s `forEach`: clears every card's highlight and sets it on the cards of
      the chosen jail. */
  method SelectJail(cards: array<JailCard>, jailId: string)
    modifies cards
    ensures cards[..] == Highlight(old(cards[..]), jailId)
  {
    var i := 0;
    while i < cards.Length
      invariant 0 <= i <= cards.Length
      invariant forall k :: 0 <= k < i ==> cards[k] == old(cards[k]).(selected := old(cards[k]).jailId == jailId)
      invariant forall k :: i <= k < cards.Length ==> cards[k] == old(cards[k])
    {
      cards[i] := cards[i].(selected := false);
      if cards[i].jailId == jailId {
        cards[i] := cards[i].(selected := true);
      }
      i := i + 1;
    }
  }

  /** With one card per jail, at most one card is highlighted, whatever was highlighted
      before. */
  lemma AtMostOneHighlighted(cards: seq<JailCard>, jailId: string, i: int, j: int)
    requires forall p, q :: 0 <= p < q < |cards| ==> cards[p].jailId != cards[q].jailId
    requires 0 <= i < |cards| && 0 <= j < |cards|
    requires Highlight(cards, jailId)[i].selected && Highlight(cards, jailId)[j].selected
    ensures i == j
  {
  }

  // ---------------------------------------------------------------------------------
  // Cell tallies in `fetchBlocks`, and `viewCells`

  /** A cell as `/api/blocks/:id/cells` sends it; `isOccupied` is the stored number. */
  datatype Cell = Cell(cellID: string, blockID: string, isOccupied: int)

  /** A block as `/api/jails/:id` sends it, with the three fields the page adds. */
  datatype Block = Block(blockID: string, name: string, capacity: int,
                         totalCells: int, occupiedCells: int, occupancyRate: int)

  /** The cells of one block, in fetched order: the list `viewCells` shows. */
  function BlockCells(cells: seq<Cell>, blockID: string): (r: seq<Cell>)
    ensures forall c :: c in r <==> c in cells && c.blockID == blockID
  {
    FilterMembershipAll(cells, (c: Cell) => c.blockID == blockID);
    Filter(cells, (c: Cell) => c.blockID == blockID)
  }

  function OccupiedCells(cells: seq<Cell>): seq<Cell> {
    Filter(cells, (c: Cell) => c.isOccupied == 1)
  }

  /** `Math.round(occupied / total * 100)`, 0 without cells, in exact arithmetic: the
      percentage rounded half up. */
  function OccupancyRate(occupied: nat, total: nat): (r: int)
    requires occupied <= total
    ensures total == 0 ==> r == 0
    ensures 0 <= r <= 100
    ensures total > 0 ==> (2 * r - 1) * total <= 200 * occupied < (2 * r + 1) * total
  {
    if total == 0 then 0
    else
      var r := (200 * occupied + total) / (2 * total);
      RoundingBounds(occupied, total, r);
      r
  }

  lemma RoundingBounds(occupied: nat, total: nat, r: int)
    requires 0 < total && occupied <= total
    requires r == (200 * occupied + total) / (2 * total)
    ensures 0 <= r <= 100
    ensures (2 * r - 1) * total <= 200 * occupied < (2 * r + 1) * total
  {
    DivisionBounds(200 * occupied + total, 2 * total);
    Distribute(r, total);
    PositiveFactor(r + 1, total);
    PositiveFactor(101 - r, total);
  }

  /** Euclidean division by a positive divisor brackets the dividend. */
  lemma DivisionBounds(n: int, d: int)
    requires d > 0
    ensures (n / d) * d <= n < (n / d) * d + d
  {
  }

  /** The products `RoundingBounds` needs, each written through `r * total`. */
  lemma Distribute(r: int, total: int)
    ensures r * (2 * total) == 2 * (r * total)
    ensures (2 * r - 1) * total == 2 * (r * total) - total
    ensures (2 * r + 1) * total == 2 * (r * total) + total
    ensures (r + 1) * total == r * total + total
    ensures (101 - r) * total == 101 * total - r * total
  {
  }

  /** A block with the tallies `fetchBlocks` writes onto it. */
  function Tally(b: Block, cells: seq<Cell>): (r: Block)
    ensures r.blockID == b.blockID && r.name == b.name && r.capacity == b.capacity
    ensures 0 <= r.occupiedCells <= r.totalCells
    ensures 0 <= r.occupancyRate <= 100
    ensures r.totalCells == |BlockCells(cells, b.blockID)|
    ensures r.occupiedCells == |OccupiedCells(BlockCells(cells, b.blockID))|
    ensures r.occupancyRate == OccupancyRate(r.occupiedCells, r.totalCells)
  {
    var own := BlockCells(cells, b.blockID);
    var occupied := |OccupiedCells(own)|;
    b.(totalCells := |own|, occupiedCells := occupied, occupancyRate := OccupancyRate(occupied, |own|))
  }

  function Tallied(blocks: seq<Block>, cells: seq<Cell>): (r: seq<Block>)
    ensures |r| == |blocks|
    ensures forall i :: 0 <= i < |blocks| ==> r[i] == Tally(blocks[i], cells)
  {
    seq(|blocks|, i requires 0 <= i < |blocks| => Tally(blocks[i], cells))
  }

  /** The `forEach` of `fetchBlocks`: writes the tallies onto every block in place. */
  method TallyBlocks(blocks: array<Block>, cells: seq<Cell>)
    modifies blocks
    ensures blocks[..] == Tallied(old(blocks[..]), cells)
  {
    var i := 0;
    while i < blocks.Length
      invariant 0 <= i <= blocks.Length
      invariant forall k :: 0 <= k < i ==> blocks[k] == Tally(old(blocks[k]), cells)
      invariant forall k :: i <= k < blocks.Length ==> blocks[k] == old(blocks[k])
    {
      var own := BlockCells(cells, blocks[i].blockID);
      var total := |own|;
      var occupied := |OccupiedCells(own)|;
      blocks[i] := blocks[i].(totalCells := total, occupiedCells := occupied,
                              occupancyRate := if total > 0 then OccupancyRate(occupied, total) else 0);
      i := i + 1;
    }
  }

  // ---------------------------------------------------------------------------------
  // Status colour in `displayBlocks`

  /** 'status-full' from 90 %, 'status-high' from 70 %, 'status-normal' below. */
  function StatusClass(rate: int): (r: string)
    ensures r == "status-full" <==> rate >= 90
    ensures r == "status-high" <==> 70 <= rate < 90
    ensures r == "status-normal" <==> rate < 70
  {
    if rate >= 90 then "status-full" else if rate >= 70 then "status-high" else "status-normal"
  }

  /** A block whose every cell is occupied shows as full; a block without cells as normal. */
  lemma StatusOfTally(b: Block, cells: seq<Cell>)
    ensures var t := Tally(b, cells);
            (t.totalCells > 0 && t.occupiedCells == t.totalCells ==> StatusClass(t.occupancyRate) == "status-full") &&
            (t.totalCells == 0 ==> StatusClass(t.occupancyRate) == "status-normal")
  {
    var t := Tally(b, cells);
    if t.totalCells > 0 && t.occupiedCells == t.totalCells {
      FullRate(t.totalCells);
    }
  }

  /** Every cell occupied rounds to exactly 100 %. */
  lemma FullRate(n: nat)
    requires n > 0
    ensures OccupancyRate(n, n) == 100
  {
    var r := OccupancyRate(n, n);
    var k := 2 * r - 200;
    assert (2 * r - 1) * n == (k - 1) * n + 200 * n;
    assert (2 * r + 1) * n == (k + 1) * n + 200 * n;
    PositiveFactor(k - 1, n);
    PositiveFactor(k + 1, n);
  }

  lemma PositiveFactor(a: int, n: int)
    requires n > 0
    ensures a * n > 0 <==> a > 0
  {
  }

  // ---------------------------------------------------------------------------------
  // `sortBlocks`

  /** `a.name.localeCompare(b.name) <= 0`, modelled as lexicographic order on code points. */
  predicate NameLe(a: string, b: string) {
    a == [] || (b != [] && (a[0] < b[0] || (a[0] == b[0] && NameLe(a[1..], b[1..]))))
  }

  lemma {:induction false} NameLeTotal(a: string, b: string)
    ensures NameLe(a, b) || NameLe(b, a)
  {
    if a != [] && b != [] && a[0] == b[0] {
      NameLeTotal(a[1..], b[1..]);
    }
  }

  lemma {:induction false} NameLeTransitive(a: string, b: string, c: string)
    requires NameLe(a, b) && NameLe(b, c)
    ensures NameLe(a, c)
  {
    if a != [] && b != [] && c != [] && a[0] == b[0] && b[0] == c[0] {
      NameLeTransitive(a[1..], b[1..], c[1..]);
    }
  }

  /** The comparator a sort criterion stands for; `None` for an unknown criterion. */
  function Order(criteria: string): Option<(Block, Block) -> bool> {
    match criteria
    case "name" => Some((x: Block, y: Block) => NameLe(x.name, y.name))
    case "capacity" => Some((x: Block, y: Block) => x.capacity >= y.capacity)
    case "occupancy" => Some((x: Block, y: Block) => x.occupancyRate >= y.occupancyRate)
    case _ => None
  }

  ghost predicate TotalPreorder(le: (Block, Block) -> bool) {
    (forall x, y :: le(x, y) || le(y, x)) &&
    (forall x, y, z :: le(x, y) && le(y, z) ==> le(x, z))
  }

  /** Every known criterion is a total preorder: names ascending, capacity descending,
      occupancy descending. */
  lemma OrdersArePreorders(criteria: string)
    requires Order(criteria).Some?
    ensures TotalPreorder(Order(criteria).value)
  {
    if criteria == "name" {
      var le := Order(criteria).value;
      forall x: Block, y: Block ensures le(x, y) || le(y, x) {
        NameLeTotal(x.name, y.name);
      }
      forall x: Block, y: Block, z: Block | le(x, y) && le(y, z) ensures le(x, z) {
        NameLeTransitive(x.name, y.name, z.name);
      }
    }
  }

  predicate SortedBy(s: seq<Block>, le: (Block, Block) -> bool) {
    forall p, q :: 0 <= p < q < |s| ==> le(s[p], s[q])
  }

  /** `blocks.sort(compare)` for a known criterion, as an insertion sort by adjacent
      swaps. */
  method SortBy(a: array<Block>, le: (Block, Block) -> bool)
    requires TotalPreorder(le)
    modifies a
    ensures SortedBy(a[..], le)
    ensures multiset(a[..]) == multiset(old(a[..]))
  {
    var i := 0;
    while i < a.Length
      invariant 0 <= i <= a.Length
      invariant SortedBy(a[..i], le)
      invariant multiset(a[..]) == multiset(old(a[..]))
    {
      Insert(a, i, le);
      i := i + 1;
    }
    assert a[..] == a[..a.Length];
  }

  /** One pass of the insertion sort: moves `a[i]` left past every element it must precede,
      so that the prefix up to `i` is sorted. */
  method Insert(a: array<Block>, i: nat, le: (Block, Block) -> bool)
    requires TotalPreorder(le) && i < a.Length && SortedBy(a[..i], le)
    modifies a
    ensures SortedBy(a[..i + 1], le)
    ensures multiset(a[..]) == multiset(old(a[..]))
  {
    var j := i;
    while j > 0 && !le(a[j - 1], a[j])
      invariant 0 <= j <= i
      invariant forall p, q :: 0 <= p < q <= i && q != j ==> le(a[p], a[q])
      invariant multiset(a[..]) == multiset(old(a[..]))
    {
      SwapBack(a, j, i, le);
      j := j - 1;
    }
    if j > 0 {
      forall p | 0 <= p < j - 1 ensures le(a[p], a[j]) {
        assert le(a[p], a[j - 1]);
      }
    }
  }

  /** One swap of `Insert`: the element at `j` belongs before its left neighbour. */
  method SwapBack(a: array<Block>, j: nat, i: nat, le: (Block, Block) -> bool)
    requires 0 < j <= i < a.Length && le(a[j], a[j - 1])
    requires forall p, q :: 0 <= p < q <= i && q != j ==> le(a[p], a[q])
    modifies a
    ensures forall p, q :: 0 <= p < q <= i && q != j - 1 ==> le(a[p], a[q])
    ensures multiset(a[..]) == multiset(old(a[..]))
  {
    a[j - 1], a[j] := a[j], a[j - 1];
  }

  /** `sortBlocks`: sorts the block list in place by the chosen criterion; an unknown
      criterion leaves it as it is. */
  method SortBlocks(a: array<Block>, criteria: string)
    modifies a
    ensures Order(criteria).Some? ==> SortedBy(a[..], Order(criteria).value)
    ensures Order(criteria).None? ==> a[..] == old(a[..])
    ensures multiset(a[..]) == multiset(old(a[..]))
  {
    var order := Order(criteria);
    if order.Some? {
      OrdersArePreorders(criteria);
      SortBy(a, order.value);
    }
  }
}
