/** The page pool (rabbitMQ_C/amqp_mem.c): small blocks are cut off pages one after the other, large ones
    are allocated singly, and `recycle` frees the large ones and keeps the pages for the next round. */
module AmqpPool {
  import opened Common

  const TWO64 := 0x1_0000_0000_0000_0000

  /** Memory is a page of the pool or a large block of its own. */
  datatype Region = Page(n: nat) | Large(id: nat)

  datatype Block = Block(region: Region, offset: nat, size: nat)

  /** `(amount + 7) & ~7`, in 64 bits. */
  function Rounded(amount: nat): (r: nat)
    ensures r % 8 == 0
  {
    (amount + 7) % TWO64 / 8 * 8
  }

  /** The sum does not wrap for any amount but the last seven below 2^64; for those the block would be
      too small. */
  lemma RoundedEnough(amount: nat)
    requires 0 < amount < TWO64
    ensures Rounded(amount) >= amount <==> amount <= TWO64 - 8
    ensures amount <= TWO64 - 8 ==> amount <= Rounded(amount) < amount + 8
  {
  }

  predicate Apart(a: Block, b: Block) {
    a.region != b.region || a.offset + a.size <= b.offset || b.offset + b.size <= a.offset
  }

  lemma Eights(a: nat, b: nat)
    requires a % 8 == 0 && b % 8 == 0
    ensures (a + b) % 8 == 0
  {
  }

  /** Pages begun by a round of requests, and how much of the last one is used. */
  function Fill(pageSize: nat, round: seq<nat>): (r: (nat, nat))
    ensures r.1 <= pageSize && r.1 % 8 == 0 && (r.0 == 0 ==> r.1 == 0)
  {
    if round == [] then (0, 0)
    else
      var (n, used) := Fill(pageSize, round[..|round| - 1]);
      var amount := round[|round| - 1];
      var r := Rounded(amount);
      Eights(used, r);
      if amount == 0 || r > pageSize then (n, used)
      else if n > 0 && used + r <= pageSize then (n, used + r)
      else (n + 1, r)
  }

  lemma FillSnoc(pageSize: nat, round: seq<nat>, amount: nat)
    ensures var (n, used) := Fill(pageSize, round);
      var r := Rounded(amount);
      Fill(pageSize, round + [amount]) ==
        if amount == 0 || r > pageSize then (n, used)
        else if n > 0 && used + r <= pageSize then (n, used + r)
        else (n + 1, r)
  {
    assert (round + [amount])[..|round|] == round;
  }

  function Max(a: nat, b: nat): nat { if a > b then a else b }

  class Pool {
    const pageSize: nat
    var pages: nat                     // pages.num_blocks
    var nextPage: nat
    var allocBlock: Option<nat>        // the page being cut up
    var allocUsed: nat
    var largeBlocks: seq<nat>
    var made: nat                      // large blocks ever allocated
    ghost var live: seq<Block>         // handed out since the last recycle
    ghost var round: seq<nat>          // amounts asked for since then
    ghost var earlier: nat             // the most pages any earlier round began

    /** A block handed out lies inside its page or is a large block of its own. */
    ghost predicate Inside(b: Block)
      reads this
    {
      && b.offset % 8 == 0
      && match b.region
         case Page(n) => n < nextPage && b.offset + b.size <= if n == nextPage - 1 then allocUsed else pageSize
         case Large(id) => b.offset == 0 && id < made && id in largeBlocks
    }

    ghost predicate Disjoint()
      reads this
    {
      forall i, j :: 0 <= i < j < |live| ==> Apart(live[i], live[j])
    }

    ghost predicate Valid()
      reads this
    {
      && pageSize > 0 && nextPage <= pages && allocUsed <= pageSize && allocUsed % 8 == 0
      && allocBlock == (if nextPage == 0 then None else Some(nextPage - 1))
      && (forall i {:trigger live[i]} :: 0 <= i < |live| ==> Inside(live[i])) && Disjoint()
      && (nextPage, allocUsed) == Fill(pageSize, round) && pages == Max(earlier, nextPage)
    }

    /** `init_amqp_pool`: a page size of zero means 4096. */
    constructor (size: nat)
      ensures Valid() && pages == 0 && live == [] && round == [] && pageSize == if size == 0 then 4096 else size
    {
      pageSize := if size == 0 then 4096 else size;
      pages, nextPage, allocBlock, allocUsed, largeBlocks, made := 0, 0, None, 0, [], 0;
      live, round, earlier := [], [], 0;
    }

    /** `amqp_pool_alloc`: blocks of one round never overlap, and they are large enough unless rounding the
        amount up wraps around; a page is made only when every page the pool kept is in use. */
    method Alloc(amount: nat) returns (block: Option<Block>)
      requires Valid() && amount < TWO64
      modifies this
      ensures Valid() && round == old(round) + [amount] && earlier == old(earlier)
      ensures amount == 0 ==> block == None && live == old(live)
      ensures amount > 0 ==> block.Some? && block.value.size == Rounded(amount) && live == old(live) + [block.value]
      ensures amount > 0 ==> (block.value.size >= amount <==> amount <= TWO64 - 8)
      ensures pages == old(pages) || (pages == old(pages) + 1 && old(nextPage) == old(pages))
    {
      hide Rounded;
      FillSnoc(pageSize, round, amount);
      hide Fill;
      round := round + [amount];
      if amount == 0 { return None; }
      RoundedEnough(amount);
      var size := Rounded(amount);
      var b := Cut(size);
      return Some(b);
    }

    /** The rest of `amqp_pool_alloc`, for a rounded amount. */
    method Cut(size: nat) returns (b: Block)
      requires pageSize > 0 && nextPage <= pages && allocUsed <= pageSize && size % 8 == 0
      requires allocBlock == (if nextPage == 0 then None else Some(nextPage - 1)) && allocUsed % 8 == 0
      requires forall i {:trigger live[i]} :: 0 <= i < |live| ==> Inside(live[i])
      requires Disjoint()
      modifies `pages, `nextPage, `allocBlock, `allocUsed, `largeBlocks, `made, `live
      ensures nextPage <= pages && b.size == size && live == old(live) + [b] && Disjoint()
      ensures forall i {:trigger live[i]} :: 0 <= i < |live| ==> Inside(live[i])
      ensures allocBlock == if nextPage == 0 then None else Some(nextPage - 1)
      ensures (nextPage, allocUsed) ==
        if size > pageSize then old((nextPage, allocUsed))
        else if old(nextPage) > 0 && old(allocUsed) + size <= pageSize then (old(nextPage), old(allocUsed) + size)
        else (old(nextPage) + 1, size)
      ensures pages == if old(nextPage) == old(pages) && nextPage > old(nextPage) then old(pages) + 1 else old(pages)
    {
      if size > pageSize {
        b := Block(Large(made), 0, size);
        largeBlocks := largeBlocks + [made];
        made := made + 1;
      } else if allocBlock.Some? && allocUsed + size <= pageSize {
        b := Block(Page(allocBlock.value), allocUsed, size);
        allocUsed := allocUsed + size;
      } else {
        if nextPage >= pages {
          pages := pages + 1;
          allocBlock := Some(pages - 1);
          nextPage := pages;
        } else {
          allocBlock := Some(nextPage);
          nextPage := nextPage + 1;
        }
        allocUsed := size;
        b := Block(Page(allocBlock.value), 0, size);
      }
      live := live + [b];
    }

    /** `recycle_amqp_pool`. */
    method Recycle()
      requires Valid()
      modifies this
      ensures Valid() && live == [] && round == [] && pages == old(pages) && earlier == old(pages)
    {
      earlier := pages;
      largeBlocks := [];
      nextPage := 0;
      allocBlock := None;
      allocUsed := 0;
      live, round := [], [];
    }

    /** While a round repeats the requests of one that ended before, it makes no new page. */
    lemma RepeatedRoundReuses(past: seq<nat>)
      requires Valid() && Fill(pageSize, past).0 <= earlier && round <= past
      ensures pages == earlier
    {
      assert past[..|round|] == round;
      FillGrows(pageSize, past, |round|);
    }
  }

  lemma {:induction false} FillGrows(pageSize: nat, round: seq<nat>, k: nat)
    requires k <= |round|
    ensures Fill(pageSize, round[..k]).0 <= Fill(pageSize, round).0
    decreases |round| - k
  {
    hide Rounded;
    if k == |round| {
      assert round[..k] == round;
    } else {
      FillGrows(pageSize, round, k + 1);
      assert round[..k + 1][..k] == round[..k];
    }
  }
}
