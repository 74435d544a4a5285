// Addresses, access rules and the decision they make.
module Access {
  import opened Bits
  import opened Prelude
  import opened Entropy

  type U128 = n: nat | n < 0x1_0000_0000_0000_0000_0000_0000_0000_0000 witness 0

  datatype IpAddr = V4(v4: U32) | V6(v6: U128) {
    function Width(): nat { if V4? then 32 else 128 }

    function Bits(): nat { if V4? then v4 else v6 }
  }

  // ::ffff:a.b.c.d becomes a.b.c.d
  function Canonical(address: IpAddr): IpAddr {
    match address
    case V4(_) => address
    case V6(bits) => if bits / WORDS == 0xFFFF then V4(bits % WORDS) else address
  }

  function Mapped(v4: U32): IpAddr {
    V6(0xFFFF * WORDS + v4)
  }

  datatype Rule = Address(rule: IpAddr) | Cidr(base: IpAddr, prefix: nat) | Range(start: IpAddr, end: IpAddr) {
    predicate Matches(from: IpAddr) {
      var address := Canonical(from);
      match this
      case Address(rule) => Canonical(rule) == address
      case Cidr(base, prefix) => PrefixMatches(Canonical(base), prefix, address)
      case Range(start, end) =>
        var (low, high) := (Canonical(start), Canonical(end));
        (low.V4? && high.V4? && address.V4? && low.v4 <= address.v4 <= high.v4)
        || (low.V6? && high.V6? && address.V6? && low.v6 <= address.v6 <= high.v6)
    }
  }

  function Quotient(x: nat, m: nat): nat
    requires m > 0
  {
    x / m
  }

  function ShiftRight(bits: nat, places: nat): nat {
    Quotient(bits, Pow2(places))
  }

  // The top prefix bits
  function Masked(bits: nat, width: nat, prefix: nat): Option<nat> {
    if prefix > width then None
    else if prefix == 0 then Some(0)
    else Some(ShiftRight(bits, width - prefix))
  }

  predicate PrefixMatches(base: IpAddr, prefix: nat, address: IpAddr) {
    match (base, address)
    case (V4(b), V4(a)) =>
      Masked(b, 32, prefix) == (if prefix <= 32 then Masked(a, 32, prefix) else None) && prefix <= 32
    case (V6(b), V6(a)) => prefix <= 128 && Masked(b, 128, prefix) == Masked(a, 128, prefix)
    case _ => false
  }

  lemma QuotientInterval(a: nat, b: nat, m: nat)
    requires m > 0
    ensures a / m == b / m <==> b - b % m <= a <= b - b % m + m - 1
  {
    var n := b / m;
    assert b - b % m == n * m;
    if n * m <= a <= n * m + m - 1 {
      assert (n + 1) * m == n * m + m;
      Remainder(a, m, n);
      assert (a / m) * m == n * m;
      SameFactor(a / m, n, m);
    }
  }

  lemma SameFactor(a: nat, b: nat, m: nat)
    requires m > 0 && a * m == b * m
    ensures a == b
  {
    MulOrder(a + 1, b, m);
    MulOrder(b + 1, a, m);
    assert (a + 1) * m == a * m + m && (b + 1) * m == b * m + m;
  }

  lemma BitsFit(a: IpAddr)
    ensures a.Bits() < Pow2(a.Width())
  {
    Pow2Word();
    Pow2Adds(32, 32);
    Pow2Adds(64, 64);
  }

  // The interval of numbers that share the top bits of b
  predicate InBlock(a: nat, b: nat, places: nat) {
    var size := Pow2(places);
    var network := b - b % size;
    network <= a <= network + size - 1
  }

  lemma MaskedInterval(a: nat, b: nat, width: nat, prefix: nat)
    requires a < Pow2(width) && b < Pow2(width) && prefix <= width
    ensures Masked(a, width, prefix) == Masked(b, width, prefix) <==> InBlock(a, b, width - prefix)
  {
    QuotientInterval(a, b, Pow2(width - prefix));
    if prefix == 0 {
      ZeroQuotient(a, Pow2(width));
      ZeroQuotient(b, Pow2(width));
    }
  }

  // A prefix is an interval of addresses of its own family; one that is too long is none.
  lemma CidrIsInterval(base: IpAddr, prefix: nat, from: IpAddr)
    ensures var b, a := Canonical(base), Canonical(from);
      Cidr(base, prefix).Matches(from) <==>
        b.V4? == a.V4? && prefix <= b.Width() && InBlock(a.Bits(), b.Bits(), b.Width() - prefix)
  {
    hide Pow2, InBlock, Masked;
    var b, a := Canonical(base), Canonical(from);
    BitsFit(a);
    BitsFit(b);
    if b.V4? == a.V4? && prefix <= b.Width() {
      MaskedInterval(a.Bits(), b.Bits(), b.Width(), prefix);
    }
  }

  // A longer prefix matches no more.
  lemma LongerMatchesLess(base: IpAddr, short: nat, long: nat, from: IpAddr)
    requires short <= long && Cidr(base, long).Matches(from)
    ensures Cidr(base, short).Matches(from)
  {
    hide Pow2;
    var b, a := Canonical(base), Canonical(from);
    var w := b.Width();
    BitsFit(a);
    BitsFit(b);
    var m, k := Pow2(w - long), Pow2(long - short);
    Pow2Adds(w - long, long - short);
    ShiftTwice(a.Bits(), m, k);
    ShiftTwice(b.Bits(), m, k);
    ZeroQuotient(a.Bits(), Pow2(w));
    ZeroQuotient(b.Bits(), Pow2(w));
  }

  lemma ZeroQuotient(x: nat, m: nat)
    requires x < m
    ensures x / m == 0
  {}

  lemma ShiftTwice(x: nat, m: nat, k: nat)
    requires m > 0 && k > 0
    ensures m * k > 0 && x / (m * k) == x / m / k
  {
    var q, r := x / m, x % m;
    var p, s := q / k, q % k;
    Division(x, m);
    Division(q, k);
    Distributes(p, k, s, m);
    MulOrder(s + 1, k, m);
    TimesNext(s, m);
    Positive(m, k);
    QuotientIs(x, m * k, p, s * m + r);
  }

  lemma Positive(m: nat, k: nat)
    requires m > 0 && k > 0
    ensures m * k > 0 && m * k == k * m
  {}

  lemma Distributes(p: nat, k: nat, s: nat, m: nat)
    ensures (p * k + s) * m == p * (m * k) + s * m
  {}

  lemma QuotientIs(x: nat, m: nat, p: nat, r: nat)
    requires m > 0 && x == p * m + r && r < m
    ensures x / m == p
  {
    TimesNext(p, m);
    Remainder(x, m, p);
    SameFactor(x / m, p, m);
  }

  // A range is an interval of addresses of one family, and a single address is itself.
  lemma RangeIsInterval(start: IpAddr, end: IpAddr, from: IpAddr)
    ensures var low, high, a := Canonical(start), Canonical(end), Canonical(from);
      && (Range(start, end).Matches(from) <==>
            low.V4? == high.V4? == a.V4? && low.Bits() <= a.Bits() <= high.Bits())
      && (Address(start).Matches(from) <==> low.V4? == a.V4? && low.Bits() == a.Bits())
  {}

  // Canonical is an IPv4 address for each address that maps one, and the address itself for every other.
  lemma CanonicalIsUnmapped(address: IpAddr)
    ensures Canonical(address).V4? || Canonical(address) == address
    ensures address.V4? ==> Canonical(address) == address
    ensures address.V6? ==>
      forall v4: U32 :: Canonical(address) == V4(v4) <==> address.v6 == 0xFFFF_0000_0000 + v4
  {}

  lemma CanonicalIdempotent(a: IpAddr)
    ensures Canonical(Canonical(a)) == Canonical(a)
  {}

  lemma MappedIsSame(v4: U32)
    ensures Canonical(Mapped(v4)) == V4(v4)
  {}

  datatype Denial = NotAllowed | Denied

  datatype AccessList = AccessList(allow: seq<Rule>, deny: seq<Rule>) {
    static predicate AnyMatches(rules: seq<Rule>, from: IpAddr) {
      exists i :: 0 <= i < |rules| && rules[i].Matches(from)
    }

    function Check(from: IpAddr): Result<(), Denial> {
      if AnyMatches(deny, from) then Err(Denied)
      else if allow != [] && !AnyMatches(allow, from) then Err(NotAllowed)
      else Ok(())
    }
  }

  // Deny wins, an empty list is open, and how an IPv4 address is spelt does not matter.
  lemma CheckDecides(list: AccessList, from: IpAddr)
    ensures list.Check(from).Ok? <==>
      && (forall r :: r in list.deny ==> !r.Matches(from))
      && (list.allow == [] || exists r :: r in list.allow && r.Matches(from))
    ensures list.Check(from) == Err(Denied) <==> exists r :: r in list.deny && r.Matches(from)
    ensures list.Check(from) == list.Check(Canonical(from))
  {
    CanonicalIdempotent(from);
    assert forall r: Rule :: r.Matches(from) == r.Matches(Canonical(from));
    assert AccessList.AnyMatches(list.deny, from) == AccessList.AnyMatches(list.deny, Canonical(from));
    assert AccessList.AnyMatches(list.allow, from) == AccessList.AnyMatches(list.allow, Canonical(from));
    forall r | r in list.deny && r.Matches(from) ensures AccessList.AnyMatches(list.deny, from) {
      var i :| 0 <= i < |list.deny| && list.deny[i] == r;
    }
    forall r | r in list.allow && r.Matches(from) ensures AccessList.AnyMatches(list.allow, from) {
      var i :| 0 <= i < |list.allow| && list.allow[i] == r;
    }
  }

  lemma MappedCheck(list: AccessList, v4: U32)
    ensures list.Check(Mapped(v4)) == list.Check(V4(v4))
  {
    CheckDecides(list, Mapped(v4));
    MappedIsSame(v4);
  }
}
