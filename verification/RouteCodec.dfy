/** The account layout of a route's legs, and the wire format of the route instruction. */
module RouteCodec {
  import opened Arith
  import opened Outcome
  import opened Fixed

  type Key = nat

  type byte = b: nat | b < 0x100

  /** Which of the router's venue modules runs a leg. */
  datatype Venue = RaydiumAmm | Overpass(discriminator: seq<byte>)

  datatype SwapSpec = SwapSpec(venue: Venue, from: u8, to: u8, weightNanos: u32, nAccounts: u8)

  /** The program each venue module of the router is compiled against. */
  datatype Programs = Programs(raydium: Key, overpass: Key) {
    function Of(venue: Venue): Key {
      match venue
      case RaydiumAmm => raydium
      case Overpass(_) => overpass
    }
  }

  datatype AccountMeta = AccountMeta(key: Key, signer: bool, writable: bool)

  /** A venue's own instruction: its accounts and its program. */
  datatype Instruction = Instruction(accounts: seq<AccountMeta>, program: Key)

  // ---------------------------------------------------------------- leg accounts

  /** TitanPDA signs through its seeds, so its signer flag is cleared off chain. */
  function Cleared(accounts: seq<AccountMeta>, titan: Key): seq<AccountMeta> {
    seq(|accounts|, i requires 0 <= i < |accounts| =>
      if accounts[i].key == titan then accounts[i].(signer := false) else accounts[i])
  }

  function LegAccounts(ix: Instruction, titan: Key): seq<AccountMeta> {
    Cleared(ix.accounts, titan) + [AccountMeta(ix.program, false, false)]
  }

  /** The count that travels with a leg is cut to one byte. */
  function LegCount(ix: Instruction, titan: Key): u8 {
    |LegAccounts(ix, titan)| % 0x100
  }

  function Layout(legs: seq<Instruction>, titan: Key): seq<AccountMeta> {
    if legs == [] then [] else LegAccounts(legs[0], titan) + Layout(legs[1..], titan)
  }

  /** One specification travels with each leg, carrying its count. */
  ghost predicate Counted(legs: seq<Instruction>, specs: seq<SwapSpec>, titan: Key) {
    |specs| == |legs| && forall i :: 0 <= i < |legs| ==> specs[i].nAccounts == LegCount(legs[i], titan)
  }

  predicate SignsIn(all: seq<AccountMeta>, key: Key) {
    exists m :: m in all && m.key == key && m.signer
  }

  predicate WritableIn(all: seq<AccountMeta>, key: Key) {
    exists m :: m in all && m.key == key && m.writable
  }

  /** On chain an account has one signer and one writable flag: those of any mention in the transaction. */
  function Seen(accounts: seq<AccountMeta>, all: seq<AccountMeta>): seq<AccountMeta> {
    seq(|accounts|, i requires 0 <= i < |accounts| =>
      AccountMeta(accounts[i].key, SignsIn(all, accounts[i].key), WritableIn(all, accounts[i].key)))
  }

  /** The router's view of one leg: all accounts but the last, TitanPDA signing again, for the venue's program. */
  function Restored(slice: seq<AccountMeta>, titan: Key, program: Key): Instruction
    requires slice != []
  {
    var metas := slice[..|slice| - 1];
    Instruction(
      seq(|metas|, i requires 0 <= i < |metas| =>
        AccountMeta(metas[i].key, metas[i].key == titan || metas[i].signer, metas[i].writable)),
      program)
  }

  /** A program can be invoked only when it is among the accounts handed on. */
  predicate Invocable(slice: seq<AccountMeta>, program: Key) {
    exists i :: 0 <= i < |slice| && slice[i].key == program
  }

  /** The router's walk over the concatenated legs, invoking each venue's program. */
  function Sliced(accounts: seq<AccountMeta>, specs: seq<SwapSpec>, on: Programs, titan: Key): Option<seq<Instruction>>
  {
    if specs == [] then Some([])
    else
      var (count, program) := (specs[0].nAccounts, on.Of(specs[0].venue));
      if count == 0 || count > |accounts| || !Invocable(accounts[..count], program) then None
      else
        match Sliced(accounts[count..], specs[1..], on, titan)
        case None => None
        case Some(rest) => Some([Restored(accounts[..count], titan, program)] + rest)
  }

  /** A venue's flags are those the transaction gives its accounts, with TitanPDA signing wherever it is named. */
  predicate Agrees(ix: Instruction, all: seq<AccountMeta>, titan: Key) {
    forall i :: 0 <= i < |ix.accounts| ==> ix.accounts[i] == Granted(ix.accounts[i].key, all, titan)
  }

  function Granted(key: Key, all: seq<AccountMeta>, titan: Key): AccountMeta {
    AccountMeta(key, key == titan || SignsIn(all, key), WritableIn(all, key))
  }

  /** The appended last account is the venue's own program, so the router can invoke it. */
  lemma RestoredLeg(ix: Instruction, all: seq<AccountMeta>, titan: Key, program: Key)
    ensures var slice := Seen(LegAccounts(ix, titan), all);
      && (Restored(slice, titan, program) == ix <==> program == ix.program && Agrees(ix, all, titan))
      && Invocable(slice, ix.program)
  {
    hide SignsIn, WritableIn;
    var slice := Seen(LegAccounts(ix, titan), all);
    assert slice[|slice| - 1].key == ix.program;
    var back := Restored(slice, titan, program);
    assert |back.accounts| == |ix.accounts|;
    assert forall i :: 0 <= i < |ix.accounts| ==> back.accounts[i] == Granted(ix.accounts[i].key, all, titan);
    if Agrees(ix, all, titan) {
      assert back.accounts == ix.accounts;
    }
    if back == ix {
      forall i | 0 <= i < |ix.accounts|
        ensures ix.accounts[i] == Granted(ix.accounts[i].key, all, titan)
      {
        assert back.accounts[i] == ix.accounts[i];
      }
    }
  }

  /** A leg whose account count, program included, fits the byte it travels in. */
  predicate Fits(ix: Instruction) {
    |ix.accounts| + 1 <= 255
  }

  lemma SeenSplits(a: seq<AccountMeta>, b: seq<AccountMeta>, all: seq<AccountMeta>)
    ensures Seen(a + b, all) == Seen(a, all) + Seen(b, all)
  {
    hide SignsIn, WritableIn;
  }

  /** A leg whose count fits and whose venue tag dispatches to its own program. */
  predicate Routed(ix: Instruction, program: Key) {
    Fits(ix) && program == ix.program
  }

  /** Such a leg comes back whole when its flags agree too. */
  predicate ComesBack(ix: Instruction, all: seq<AccountMeta>, titan: Key, program: Key) {
    Routed(ix, program) && Agrees(ix, all, titan)
  }

  /** The front leg, cut off by its count. */
  lemma FrontLeg(ix: Instruction, rest: seq<AccountMeta>, all: seq<AccountMeta>, titan: Key, program: Key)
    ensures var (seen, count) := (Seen(LegAccounts(ix, titan) + rest, all), LegCount(ix, titan));
      && count <= |seen|
      && (Fits(ix) ==> && count > 0 && seen[..count] == Seen(LegAccounts(ix, titan), all)
                       && seen[count..] == Seen(rest, all) && Invocable(seen[..count], ix.program))
      && (count > 0 ==> (Restored(seen[..count], titan, program) == ix <==> ComesBack(ix, all, titan, program)))
  {
    var first, count := LegAccounts(ix, titan), LegCount(ix, titan);
    SeenSplits(first, rest, all);
    RestoredLeg(ix, all, titan, program);
    hide Agrees, SignsIn, WritableIn, Invocable;
    if Fits(ix) {
      assert (Seen(first, all) + Seen(rest, all))[..count] == Seen(first, all);
      assert (Seen(first, all) + Seen(rest, all))[count..] == Seen(rest, all);
    } else if count > 0 {
      assert |Restored(Seen(first + rest, all)[..count], titan, program).accounts| == count - 1 < |ix.accounts|;
    }
  }

  ghost predicate AllRouted(legs: seq<Instruction>, specs: seq<SwapSpec>, on: Programs)
    requires |specs| == |legs|
  {
    forall i :: 0 <= i < |legs| ==> Routed(legs[i], on.Of(specs[i].venue))
  }

  ghost predicate AllComeBack(legs: seq<Instruction>, specs: seq<SwapSpec>, on: Programs, all: seq<AccountMeta>,
      titan: Key)
    requires |specs| == |legs|
  {
    forall i :: 0 <= i < |legs| ==> ComesBack(legs[i], all, titan, on.Of(specs[i].venue))
  }

  /**
   Walking the concatenated legs by their counts gives back every venue's own accounts and program, exactly
   when every leg fits its count, its venue tag dispatches to its own program, and its accounts carry the
   flags that the whole transaction `all` gives them, TitanPDA a signer wherever a venue named it. Whatever
   the flags, the walk does not fail over legs that fit and dispatch to their own programs.
   */
  lemma {:induction false} LayoutRoundTrip(legs: seq<Instruction>, specs: seq<SwapSpec>, on: Programs,
      all: seq<AccountMeta>, titan: Key)
    requires Counted(legs, specs, titan)
    ensures Sliced(Seen(Layout(legs, titan), all), specs, on, titan) == Some(legs)
       <==> AllComeBack(legs, specs, on, all, titan)
    ensures AllRouted(legs, specs, on) ==> Sliced(Seen(Layout(legs, titan), all), specs, on, titan).Some?
    decreases |legs|
  {
    hide Restored, Agrees, Fits, LegAccounts, LegCount, Seen, Invocable, Programs.Of, AllComeBack, AllRouted;
    if legs != [] {
      assert Counted(legs[1..], specs[1..], titan);
      LayoutRoundTrip(legs[1..], specs[1..], on, all, titan);
      FrontLeg(legs[0], Layout(legs[1..], titan), all, titan, on.Of(specs[0].venue));
      EachFromSecond(legs, specs, on, all, titan);
      SlicedFront(legs, specs, on, all, titan);
    } else {
      NothingSeen(all);
      assert AllComeBack(legs, specs, on, all, titan) by { NoneToComeBack(specs, on, all, titan); }
    }
  }

  lemma NothingSeen(all: seq<AccountMeta>)
    ensures Seen([], all) == []
  {
  }

  lemma NoneToComeBack(specs: seq<SwapSpec>, on: Programs, all: seq<AccountMeta>, titan: Key)
    requires specs == []
    ensures AllComeBack([], specs, on, all, titan)
  {
  }

  lemma EachFromSecond(legs: seq<Instruction>, specs: seq<SwapSpec>, on: Programs, all: seq<AccountMeta>, titan: Key)
    requires legs != [] && |specs| == |legs|
    ensures AllComeBack(legs, specs, on, all, titan)
      <==> ComesBack(legs[0], all, titan, on.Of(specs[0].venue)) && AllComeBack(legs[1..], specs[1..], on, all, titan)
    ensures AllRouted(legs, specs, on)
      <==> Routed(legs[0], on.Of(specs[0].venue)) && AllRouted(legs[1..], specs[1..], on)
  {
    hide ComesBack, Routed, Programs.Of;
    assert forall i :: 0 <= i < |legs[1..]| ==> legs[1..][i] == legs[i + 1] && specs[1..][i] == specs[i + 1];
    assert forall i :: 1 <= i < |legs| ==> legs[i] == legs[1..][i - 1] && specs[i] == specs[1..][i - 1];
  }

  /** One step of the walk: the whole is recovered exactly when the front leg and the rest are. */
  lemma SlicedFront(legs: seq<Instruction>, specs: seq<SwapSpec>, on: Programs, all: seq<AccountMeta>, titan: Key)
    requires legs != [] && Counted(legs, specs, titan)
    ensures Layout(legs, titan) == LegAccounts(legs[0], titan) + Layout(legs[1..], titan)
    ensures var (seen, count) := (Seen(Layout(legs, titan), all), LegCount(legs[0], titan));
      var program := on.Of(specs[0].venue);
      count <= |seen| &&
      var rest := Sliced(seen[count..], specs[1..], on, titan);
      && (count == 0 || !Invocable(seen[..count], program) ==> Sliced(seen, specs, on, titan) == None)
      && (count > 0 && Invocable(seen[..count], program) ==>
           && (Sliced(seen, specs, on, titan).Some? <==> rest.Some?)
           && (Sliced(seen, specs, on, titan) == Some(legs))
             == (Restored(seen[..count], titan, program) == legs[0] && rest == Some(legs[1..])))
  {
    var program := on.Of(specs[0].venue);
    FrontLeg(legs[0], Layout(legs[1..], titan), all, titan, program);
    hide Restored, LegAccounts, LegCount, Seen, Invocable, Programs.Of;
    var seen, count := Seen(Layout(legs, titan), all), LegCount(legs[0], titan);
    assert specs[0].nAccounts == count;
    var rest := Sliced(seen[count..], specs[1..], on, titan);
    if count > 0 && rest.Some? {
      SameFront(Restored(seen[..count], titan, program), rest.value, legs);
    }
  }

  lemma SameFront(first: Instruction, others: seq<Instruction>, legs: seq<Instruction>)
    requires legs != []
    ensures ([first] + others == legs) == (first == legs[0] && others == legs[1..])
  {
    assert [legs[0]] + legs[1..] == legs;
    assert ([first] + others)[0] == first && ([first] + others)[1..] == others;
  }

  /** Every mention of an account in the transaction carries the same flags. */
  ghost predicate Consistent(all: seq<AccountMeta>) {
    forall m, n :: m in all && n in all && m.key == n.key ==> m == n
  }

  /** TitanPDA signs wherever it appears in the venue's own instruction. */
  predicate TitanSigns(ix: Instruction, titan: Key) {
    forall i :: 0 <= i < |ix.accounts| && ix.accounts[i].key == titan ==> ix.accounts[i].signer
  }

  /** With the same flags at every mention, all that is left to ask of a leg is that TitanPDA signs in it. */
  lemma AgreesIfConsistent(ix: Instruction, all: seq<AccountMeta>, titan: Key)
    requires Consistent(all) && forall m :: m in LegAccounts(ix, titan) ==> m in all
    ensures Agrees(ix, all, titan) <==> TitanSigns(ix, titan)
  {
    forall i | 0 <= i < |ix.accounts|
      ensures ix.accounts[i] == Granted(ix.accounts[i].key, all, titan)
         <==> (ix.accounts[i].key == titan ==> ix.accounts[i].signer)
    {
      var m := LegAccounts(ix, titan)[i];
      assert m in all && m == Cleared(ix.accounts, titan)[i];
      assert WritableIn(all, m.key) <==> m.writable;
      assert m.key != titan ==> (SignsIn(all, m.key) <==> m.signer);
    }
    hide SignsIn, WritableIn, Consistent;
  }

  // ---------------------------------------------------------------- wire format

  const DISCRIMINATOR: byte := 42

  datatype Route = Route(amount: u64, mints: u8, swaps: seq<SwapSpec>)

  predicate Encodable(s: SwapSpec) {
    s.venue.Overpass? ==> |s.venue.discriminator| == 8
  }

  /** The `k` low bytes of a number, lowest first. */
  function LeBytes(n: nat, k: nat): (r: seq<byte>)
    ensures |r| == k
  {
    if k == 0 then [] else [n % 0x100] + LeBytes(n / 0x100, k - 1)
  }

  function FromLe(bytes: seq<byte>): nat {
    if bytes == [] then 0 else bytes[0] + 0x100 * FromLe(bytes[1..])
  }

  lemma ModUnique(n: nat, d: nat, q: nat, r: nat)
    requires n == q * d + r && r < d
    ensures n % d == r
  {
    DivAtLeast(n, d, q);
    DivAtMost(n, d, q);
  }

  /** The low byte and the rest of a number, modulo a power of 256. */
  lemma ModOfParts(n: nat, p: nat)
    requires p > 0
    ensures 0x100 * p > 0 && n % (0x100 * p) == n % 0x100 + 0x100 * (n / 0x100 % p)
  {
    var m := n / 0x100;
    DivBounds(m, p);
    DivAtLeast(m, p, 0);
    assert m / p * (0x100 * p) == 0x100 * (m / p * p);
    ModUnique(n, 0x100 * p, m / p, n % 0x100 + 0x100 * (m % p));
  }

  /** `k` little-endian bytes keep exactly a number's low `k` bytes. */
  lemma {:induction false} LeRoundTrip(n: nat, k: nat)
    ensures Pow(0x100, k) > 0 && FromLe(LeBytes(n, k)) == n % Pow(0x100, k)
  {
    if k > 0 {
      LeRoundTrip(n / 0x100, k - 1);
      ModOfParts(n, Pow(0x100, k - 1));
      assert LeBytes(n, k)[1..] == LeBytes(n / 0x100, k - 1);
    }
  }

  /** Byte `i` is the number's digit in base 256 at place `i`, the lowest first. */
  lemma {:induction false} LeDigit(n: nat, k: nat, i: nat)
    requires i < k
    ensures Pow(0x100, i) > 0 && LeBytes(n, k)[i] == n / Pow(0x100, i) % 0x100
  {
    PowPositive(0x100, i);
    if i > 0 {
      LeDigit(n / 0x100, k - 1, i - 1);
      PowPositive(0x100, i - 1);
      DivDiv(n, 0x100, Pow(0x100, i - 1));
    }
  }

  lemma {:induction false} LeUnique(bytes: seq<byte>)
    ensures FromLe(bytes) < Pow(0x100, |bytes|)
    ensures LeBytes(FromLe(bytes), |bytes|) == bytes
  {
    if bytes != [] {
      LeUnique(bytes[1..]);
      LowByte(bytes[0], FromLe(bytes[1..]), Pow(0x100, |bytes| - 1));
    }
  }

  lemma LowByte(b: byte, rest: nat, p: nat)
    requires rest < p
    ensures (b + 0x100 * rest) % 0x100 == b && (b + 0x100 * rest) / 0x100 == rest
    ensures b + 0x100 * rest < 0x100 * p
  {
  }

  lemma Widths()
    ensures Pow(0x100, 4) == U32_LIMIT && Pow(0x100, 8) == U64_LIMIT
  {
    assert Pow(0x100, 2) == 0x10000;
    assert Pow(0x100, 4) == 0x100 * (0x100 * Pow(0x100, 2));
    assert Pow(0x100, 6) == 0x100 * (0x100 * Pow(0x100, 4));
    assert Pow(0x100, 8) == 0x100 * (0x100 * Pow(0x100, 6));
  }

  function EncodeVenue(v: Venue): seq<byte> {
    match v
    case RaydiumAmm => [0]
    case Overpass(discriminator) => [1] + discriminator
  }

  function EncodeSwap(s: SwapSpec): seq<byte> {
    EncodeVenue(s.venue) + [s.from, s.to] + LeBytes(s.weightNanos, 4) + [s.nAccounts]
  }

  function EncodeSwaps(swaps: seq<SwapSpec>): seq<byte> {
    if swaps == [] then [] else EncodeSwap(swaps[0]) + EncodeSwaps(swaps[1..])
  }

  /** The vector's length travels as four bytes, cut to 32 bits. */
  function Encode(r: Route): seq<byte> {
    [DISCRIMINATOR] + LeBytes(r.amount, 8) + [r.mints] + LeBytes(|r.swaps|, 4) + EncodeSwaps(r.swaps)
  }

  /** Where everything sits in the encoded route. */
  lemma WireLayout(r: Route)
    ensures var data := Encode(r);
      && |data| == 14 + |EncodeSwaps(r.swaps)|
      && data[0] == 42 && data[1..9] == LeBytes(r.amount, 8) && data[9] == r.mints
      && data[10..14] == LeBytes(|r.swaps|, 4) && data[14..] == EncodeSwaps(r.swaps)
  {
    hide LeBytes, EncodeSwaps;
  }

  /** And in an encoded leg. */
  lemma LegLayout(s: SwapSpec)
    requires Encodable(s)
    ensures var (data, k) := (EncodeSwap(s), if s.venue.Overpass? then 9 else 1);
      && |data| == k + 7 && data[0] == (if s.venue.Overpass? then 1 else 0)
      && (s.venue.Overpass? ==> data[1..9] == s.venue.discriminator)
      && data[k] == s.from && data[k + 1] == s.to && data[k + 2..k + 6] == LeBytes(s.weightNanos, 4)
      && data[k + 6] == s.nAccounts
  {
    hide LeBytes;
  }

  method EncodeSwapRouteV3Data(amount: u64, mints: u8, swaps: seq<SwapSpec>) returns (data: seq<byte>)
    ensures data == Encode(Route(amount, mints, swaps))
  {
    hide LeBytes, EncodeSwap;
    data := [DISCRIMINATOR];
    data := data + LeBytes(amount, 8);
    data := data + [mints];
    data := data + LeBytes(|swaps|, 4);
    ghost var header := data;
    for i := 0 to |swaps|
      invariant data + EncodeSwaps(swaps[i..]) == header + EncodeSwaps(swaps)
    {
      assert swaps[i..][1..] == swaps[i + 1..];
      assert data + (EncodeSwap(swaps[i]) + EncodeSwaps(swaps[i + 1..]))
          == data + EncodeSwap(swaps[i]) + EncodeSwaps(swaps[i + 1..]);
      data := data + EncodeSwap(swaps[i]);
    }
    assert EncodeSwaps(swaps[|swaps|..]) == [];
  }

  /** A value read off the front, with what is left. */
  datatype Read<T> = Read(value: T, rest: seq<byte>)

  function DecodeVenue(b: seq<byte>): Option<Read<Venue>> {
    if b == [] then None
    else if b[0] == 0 then Some(Read(RaydiumAmm, b[1..]))
    else if b[0] == 1 && |b| >= 9 then Some(Read(Overpass(b[1..9]), b[9..]))
    else None
  }

  function DecodeSwap(b: seq<byte>): Option<Read<SwapSpec>> {
    match DecodeVenue(b)
    case None => None
    case Some(Read(venue, rest)) =>
      if |rest| < 7 then None
      else
        Widths();
        LeUnique(rest[2..6]);
        Some(Read(SwapSpec(venue, rest[0], rest[1], FromLe(rest[2..6]), rest[6]), rest[7..]))
  }

  function DecodeSwaps(b: seq<byte>, n: nat): Option<Read<seq<SwapSpec>>> {
    if n == 0 then Some(Read([], b))
    else
      match DecodeSwap(b)
      case None => None
      case Some(Read(first, rest)) =>
        match DecodeSwaps(rest, n - 1)
        case None => None
        case Some(Read(others, left)) => Some(Read([first] + others, left))
  }

  /** By the Borsh rules for structs, enums and vectors; trailing bytes are refused. */
  function Decode(b: seq<byte>): Option<Route> {
    if |b| < 14 || b[0] != DISCRIMINATOR then None
    else
      Widths();
      LeUnique(b[1..9]);
      match DecodeSwaps(b[14..], FromLe(b[10..14]))
      case None => None
      case Some(Read(swaps, rest)) =>
        if rest != [] then None else Some(Route(FromLe(b[1..9]), b[9], swaps))
  }

  lemma SwapRoundTrip(s: SwapSpec, rest: seq<byte>)
    requires Encodable(s)
    ensures DecodeSwap(EncodeSwap(s) + rest) == Some(Read(s, rest))
  {
    hide LeBytes, FromLe, Pow;
    Widths();
    LeRoundTrip(s.weightNanos, 4);
    var b, v := EncodeSwap(s) + rest, EncodeVenue(s.venue);
    var tail := [s.from, s.to] + LeBytes(s.weightNanos, 4) + [s.nAccounts] + rest;
    assert b == v + tail;
    assert DecodeVenue(b) == Some(Read(s.venue, tail)) by {
      if s.venue.Overpass? {
        assert b[1..9] == s.venue.discriminator && b[9..] == tail;
      } else {
        assert b[1..] == tail;
      }
    }
    assert tail[2..6] == LeBytes(s.weightNanos, 4) && tail[7..] == rest;
  }

  lemma {:induction false} SwapsRoundTrip(swaps: seq<SwapSpec>, rest: seq<byte>)
    requires forall i :: 0 <= i < |swaps| ==> Encodable(swaps[i])
    ensures DecodeSwaps(EncodeSwaps(swaps) + rest, |swaps|) == Some(Read(swaps, rest))
    decreases |swaps|
  {
    hide EncodeSwap, DecodeSwap, Encodable;
    if swaps == [] {
      assert EncodeSwaps(swaps) + rest == rest;
    } else {
      var others := EncodeSwaps(swaps[1..]) + rest;
      assert EncodeSwaps(swaps) + rest == EncodeSwap(swaps[0]) + others;
      SwapRoundTrip(swaps[0], others);
      SwapsRoundTrip(swaps[1..], rest);
      assert [swaps[0]] + swaps[1..] == swaps;
    }
  }

  lemma {:induction false} EncodeSwapsSplit(swaps: seq<SwapSpec>, k: nat)
    requires k <= |swaps|
    ensures EncodeSwaps(swaps) == EncodeSwaps(swaps[..k]) + EncodeSwaps(swaps[k..])
    decreases k
  {
    hide EncodeSwap;
    if k == 0 {
      assert swaps[0..] == swaps;
    } else {
      EncodeSwapsSplit(swaps[1..], k - 1);
      assert swaps[..k][1..] == swaps[1..][..k - 1] && swaps[k..] == swaps[1..][k - 1..];
    }
  }

  /** Whatever a route says is what the router reads, and a list too long for its length field is refused. */
  lemma RouteRoundTrip(r: Route)
    requires forall i :: 0 <= i < |r.swaps| ==> Encodable(r.swaps[i])
    ensures Decode(Encode(r)) == if |r.swaps| < U32_LIMIT then Some(r) else None
  {
    hide LeBytes, FromLe, Pow, EncodeSwaps, DecodeSwaps, Encodable;
    Widths();
    LeRoundTrip(r.amount, 8);
    LeRoundTrip(|r.swaps|, 4);
    var b, c := Encode(r), |r.swaps| % U32_LIMIT;
    assert b[1..9] == LeBytes(r.amount, 8) && b[10..14] == LeBytes(|r.swaps|, 4);
    EncodeSwapsSplit(r.swaps, c);
    assert b[14..] == EncodeSwaps(r.swaps[..c]) + EncodeSwaps(r.swaps[c..]);
    SwapsRoundTrip(r.swaps[..c], EncodeSwaps(r.swaps[c..]));
    SomeSwaps(r.swaps[c..]);
    if c == |r.swaps| {
      assert r.swaps[..c] == r.swaps;
    }
  }

  lemma SomeSwaps(swaps: seq<SwapSpec>)
    ensures EncodeSwaps(swaps) == [] <==> swaps == []
  {
  }

  lemma VenueUnique(b: seq<byte>)
    requires DecodeVenue(b).Some?
    ensures var Read(venue, tail) := DecodeVenue(b).value;
      EncodeVenue(venue) + tail == b && (venue.Overpass? ==> |venue.discriminator| == 8)
  {
    if b[0] == 1 {
      assert [b[0]] + b[1..9] + b[9..] == b;
    } else {
      assert [b[0]] + b[1..] == b;
    }
  }

  lemma SwapUnique(b: seq<byte>)
    requires DecodeSwap(b).Some?
    ensures var Read(s, rest) := DecodeSwap(b).value; Encodable(s) && EncodeSwap(s) + rest == b
  {
    var Read(venue, tail) := DecodeVenue(b).value;
    VenueUnique(b);
    hide LeBytes, FromLe, Pow, DecodeVenue, EncodeVenue;
    Widths();
    LeUnique(tail[2..6]);
    Reassembled(EncodeVenue(venue), tail);
  }

  lemma Reassembled(front: seq<byte>, tail: seq<byte>)
    requires |tail| >= 7
    ensures front + [tail[0], tail[1]] + tail[2..6] + [tail[6]] + tail[7..] == front + tail
  {
  }

  lemma {:induction false} SwapsUnique(b: seq<byte>, n: nat)
    requires DecodeSwaps(b, n).Some?
    ensures var Read(swaps, rest) := DecodeSwaps(b, n).value;
      && |swaps| == n && EncodeSwaps(swaps) + rest == b
      && forall i :: 0 <= i < |swaps| ==> Encodable(swaps[i])
    decreases n
  {
    hide EncodeSwap, DecodeSwap, Encodable;
    if n > 0 {
      SwapUnique(b);
      var Read(first, tail) := DecodeSwap(b).value;
      SwapsUnique(tail, n - 1);
      var Read(others, rest) := DecodeSwaps(tail, n - 1).value;
      assert ([first] + others)[1..] == others;
      assert EncodeSwap(first) + EncodeSwaps(others) + rest == EncodeSwap(first) + (EncodeSwaps(others) + rest);
    }
  }

  /** Accepted bytes have only one reading and only one writing: what decodes is its own encoding. */
  lemma RouteUnique(b: seq<byte>)
    requires Decode(b).Some?
    ensures Encode(Decode(b).value) == b
    ensures forall i :: 0 <= i < |Decode(b).value.swaps| ==> Encodable(Decode(b).value.swaps[i])
  {
    hide LeBytes, FromLe, Pow, EncodeSwaps, DecodeSwaps, Encodable;
    Widths();
    LeUnique(b[1..9]);
    LeUnique(b[10..14]);
    SwapsUnique(b[14..], FromLe(b[10..14]));
    var r := Decode(b).value;
    assert EncodeSwaps(r.swaps) + [] == EncodeSwaps(r.swaps);
    assert [b[0]] + b[1..9] + [b[9]] + b[10..14] + b[14..] == b;
  }
}
