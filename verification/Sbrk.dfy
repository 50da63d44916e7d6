/** What the kernel answers to `sbrk`, as far as sizes go: `sys_sbrk`, `growproc` and the size tests of
    `allocuvm` and `deallocuvm`.  `sbrk` takes an `int`, the sizes are unsigned. */
module Sbrk {
  import opened Common

  const UNIT: nat := 8                 // sizeof(Header) on i386
  const WORD: nat := 0x1_0000_0000
  const PGSIZE: nat := 4096
  const USERTOP: nat := 0xA0000

  // nu * sizeof(Header) is an unsigned product, and then an `int`.
  function Argument(nu: nat): int {
    var bytes := UNIT * nu % WORD;
    if bytes < WORD / 2 then bytes else bytes - WORD
  }

  /** `growproc`: the new size of a process of `sz` bytes that asks for `n` more, if it succeeds;
      `room` says whether there are frames for the pages. */
  function Growproc(sz: nat, n: int, room: bool): Option<nat> {
    var newsz := (sz + n) % WORD;
    if n > 0 then
      if newsz > USERTOP then None
      else if newsz < sz then NonZero(sz)
      else if room then NonZero(newsz) else None
    else if n < 0 then NonZero(if newsz >= sz then sz else newsz)
    else Some(sz)
  }

  // `allocuvm` and `deallocuvm` answer 0 for a failure.
  function NonZero(sz: nat): Option<nat> { if sz == 0 then None else Some(sz) }

  // The end of the mapped pages of a process of `sz` bytes.
  function MappedTop(sz: nat): nat { (sz + PGSIZE - 1) / PGSIZE * PGSIZE }

  // `sbrk` for `nu` units with the break at unit `brk`.  It gives the old break, where the header of the
  // new block is then written: to a mapped page, or the process is killed.
  datatype Answer = Refused | Killed | Granted(brk: nat)

  function Answered(brk: nat, nu: nat, room: bool): Answer {
    match Growproc(UNIT * brk, Argument(nu), room)
    case None => Refused
    case Some(sz) => if UNIT * brk < MappedTop(sz) then Granted(sz / UNIT) else Killed
  }

  // An answer moves the break as far as it says, or is hollow, which takes 2^31 bytes.
  predicate Possible(brk: nat, nu: nat, a: Answer) {
    match a
    case Refused => true
    case Killed => nu >= HALF
    case Granted(top) =>
      UNIT * top <= USERTOP && if nu < HALF then top == brk + nu else top <= brk && UNIT * brk < USERTOP
  }

  const HALF: nat := 0x1000_0000       // units whose size is 2^31 bytes

  /** The argument is what was asked for exactly below 2^31 bytes; from there on it is not positive. */
  lemma ArgumentSign(nu: nat)
    requires 0 < nu <= 2 * HALF
    ensures Argument(nu) == if nu < HALF then UNIT * nu else UNIT * nu - WORD
    ensures Argument(nu) > 0 <==> nu < HALF
  {
  }

  /** An honest grant is the memory between the old break and the new one. */
  lemma HonestGrant(brk: nat, nu: nat, room: bool)
    requires 0 < nu < HALF && UNIT * brk <= USERTOP
    ensures Answered(brk, nu, room) ==
      if UNIT * (brk + nu) <= USERTOP && room then Granted(brk + nu) else Refused
  {
    ArgumentSign(nu);
    assert (UNIT * brk + UNIT * nu) % WORD == UNIT * (brk + nu);
    assert UNIT * brk < MappedTop(UNIT * (brk + nu));
  }

  /** From 2^31 bytes on a grant moves the break up by nothing, and perhaps down. */
  lemma HollowGrant(brk: nat, nu: nat, room: bool)
    requires HALF <= nu <= 2 * HALF && UNIT * brk <= USERTOP
    ensures Answered(brk, nu, room).Granted? ==> Answered(brk, nu, room).brk <= brk
  {
    ArgumentSign(nu);
  }

  /** What is answered then, exactly: `short` units below 2^32 bytes the break moves down by that many,
      or not at all if it is not that far up; the process is killed if its pages then end at or below
      the old break. */
  lemma HollowAnswer(brk: nat, nu: nat, room: bool)
    requires HALF <= nu <= 2 * HALF && UNIT * brk <= USERTOP
    ensures var short := 2 * HALF - nu;
            var top := if short < brk then brk - short else brk;
            Answered(brk, nu, room) ==
              if short > 0 && (short == brk || brk == 0) then Refused
              else if brk < (top + 511) / 512 * 512 then Granted(top)
              else Killed
  {
    ArgumentSign(nu);
    var short := 2 * HALF - nu;
    var top := if short < brk then brk - short else brk;
    var newsz := (UNIT * brk + Argument(nu)) % WORD;
    if short <= brk {
      assert newsz == UNIT * (brk - short);
    } else {
      assert newsz == WORD + UNIT * brk - UNIT * short;
    }
    assert (UNIT * top + PGSIZE - 1) / PGSIZE == (top + 511) / 512;
  }

  // Where the break of a program is: `exec` puts the stack in the page under it.
  predicate Loaded(brk: nat) { PGSIZE < UNIT * brk <= USERTOP }

  // Sizes that end too close below 2^32 bytes to be granted by moving the break within its page, and too far
  // to be granted by not moving it.
  predicate Between(nu: nat) { 511 <= 2 * HALF - nu <= 513 }

  /** For every such size but three there is a break at which the kernel grants it. */
  lemma SomeHollowGrant(nu: nat) returns (brk: nat)
    requires HALF <= nu <= 2 * HALF && !Between(nu)
    ensures brk == HollowBreak(nu) && Loaded(brk) && Answered(brk, nu, true).Granted?
  {
    ArgumentSign(nu);
    var short := 2 * HALF - nu;              // the argument is -8 * short
    brk := HollowBreak(nu);
    var newsz := (UNIT * brk + Argument(nu)) % WORD;
    if short < brk {
      assert newsz == UNIT * (brk - short);
    } else {
      assert newsz == WORD + UNIT * brk - UNIT * short;
    }
  }

  function HollowBreak(nu: nat): nat {
    if 0 < 2 * HALF - nu <= 510 then 1023 else 513
  }

  /** For those three there is none. */
  lemma NoHollowGrant(brk: nat, nu: nat, room: bool)
    requires Loaded(brk) && Between(nu)
    ensures !Answered(brk, nu, room).Granted?
  {
    ArgumentSign(nu);
    var short := 2 * HALF - nu;
    var newsz := (UNIT * brk + Argument(nu)) % WORD;
    assert newsz == UNIT * (brk - short);
    TopBelow(brk - short, brk);
  }

  lemma TopBelow(u: nat, v: nat)
    requires u + 511 <= v
    ensures MappedTop(UNIT * u) <= UNIT * v
  {
    assert MappedTop(UNIT * u) <= UNIT * u + PGSIZE - 1;
    assert MappedTop(UNIT * u) == UNIT * ((UNIT * u + PGSIZE - 1) / PGSIZE * 512);
  }
}
