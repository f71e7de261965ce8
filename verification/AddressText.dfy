/** Addresses as the text that the control service stores, and the order that SQL gives to text. */
module AddressText {
  import opened Bytes

  function Decimal(b: Byte): string {
    if b < 10 then [Digit(b)]
    else if b < 100 then [Digit(b / 10), Digit(b % 10)]
    else [Digit(b / 100), Digit(b / 10 % 10), Digit(b % 10)]
  }

  function Digit(d: nat): char
    requires d < 10
  {
    "0123456789"[d]
  }

  /** Four decimal numbers with dots. */
  function Dotted(ip: U32): string {
    Decimal(ip / 0x100_0000) + "." + Decimal(ip / 0x1_0000 % 0x100) + "." + Decimal(ip / 0x100 % 0x100) + "."
    + Decimal(ip % 0x100)
  }

  /** The order of text: by the first character that differs, and a proper prefix comes first. */
  predicate TextBefore(s: string, t: string) {
    if t == [] then false
    else if s == [] then true
    else s[0] < t[0] || (s[0] == t[0] && TextBefore(s[1..], t[1..]))
  }

  lemma {:induction false} TextBeforeIsAsymmetric(s: string, t: string)
    requires TextBefore(s, t)
    ensures !TextBefore(t, s)
    decreases |s|
  {
    if s == [] {
    } else if s[0] == t[0] {
      TextBeforeIsAsymmetric(s[1..], t[1..]);
    }
  }

  /** Not coming before is transitive. */
  lemma {:induction false} TextOrderIsTransitive(s: string, t: string, u: string)
    requires !TextBefore(t, s) && !TextBefore(u, t)
    ensures !TextBefore(u, s)
    decreases |s|
  {
    if s == [] || t == [] || u == [] {
    } else if s[0] == t[0] == u[0] {
      TextOrderIsTransitive(s[1..], t[1..], u[1..]);
    }
  }

  /** In the order of the stored text. */
  predicate ComesBefore(a: U32, b: U32) {
    TextBefore(Dotted(a), Dotted(b))
  }

  lemma ComesBeforeIsOrder(a: U32, b: U32, c: U32)
    ensures !ComesBefore(a, a)
    ensures ComesBefore(a, b) ==> !ComesBefore(b, a)
    ensures !ComesBefore(b, a) && !ComesBefore(c, b) ==> !ComesBefore(c, a)
  {
    var s, t, u := Dotted(a), Dotted(b), Dotted(c);
    if TextBefore(s, s) {
      TextBeforeIsAsymmetric(s, s);
    }
    if TextBefore(s, t) {
      TextBeforeIsAsymmetric(s, t);
    }
    if !TextBefore(t, s) && !TextBefore(u, t) {
      TextOrderIsTransitive(s, t, u);
    }
  }

  /** No address of the set comes before it. */
  ghost predicate IsFirst(s: set<U32>, ip: U32) {
    ip in s && forall other <- s :: !ComesBefore(other, ip)
  }

  lemma {:induction false} FirstExists(s: set<U32>)
    requires s != {}
    ensures exists ip: U32 :: IsFirst(s, ip)
    decreases |s|
  {
    var x :| x in s;
    var rest := s - {x};
    if rest == {} {
      assert s == {x};
      ComesBeforeIsOrder(x, x, x);
      assert IsFirst(s, x);
    } else {
      FirstExists(rest);
      var y: U32 :| IsFirst(rest, y);
      FirstOfMore(s, x, y);
    }
  }

  lemma FirstWithMore(s: set<U32>, x: U32, y: U32)
    requires x !in s && IsFirst(s, y)
    ensures IsFirst(s + {x}, if ComesBefore(x, y) then x else y)
  {
    assert s + {x} - {x} == s;
    FirstOfMore(s + {x}, x, y);
  }

  /** The first of a set stays the first when one more comes in, unless that comes before it. */
  lemma FirstOfMore(s: set<U32>, x: U32, y: U32)
    requires x in s && IsFirst(s - {x}, y)
    ensures IsFirst(s, if ComesBefore(x, y) then x else y)
  {
    forall z | z in s && ComesBefore(x, y)
      ensures !ComesBefore(z, x)
    {
      ComesBeforeIsOrder(x, y, z);
    }
  }
}
