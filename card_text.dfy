/** String helpers on card ids: the id prefix before the first '-', `startsWith`,
    and the decimal rendering used in instance ids (`${defId}-${index}`). */
module CardText {

  /** `s.split('-')[0]`: everything before the first '-' (all of `s` if it has none). */
  function IdPrefix(s: string): (r: string)
    ensures |r| <= |s| && r == s[..|r|]
    ensures '-' !in r
    ensures |r| < |s| ==> s[|r|] == '-'
  {
    if |s| == 0 || s[0] == '-' then "" else [s[0]] + IdPrefix(s[1..])
  }

  /** The prefix of an instance id built from a dash-free definition id is that definition id. */
  lemma {:induction false} IdPrefixOfTagged(d: string, rest: string)
    requires '-' !in d
    ensures IdPrefix(d + "-" + rest) == d
  {
    if |d| == 0 {
      assert (d + "-" + rest)[0] == '-';
    } else {
      assert (d + "-" + rest)[1..] == d[1..] + "-" + rest;
      IdPrefixOfTagged(d[1..], rest);
    }
  }

  /** `s.startsWith(p)`. */
  predicate StartsWith(s: string, p: string) {
    |p| <= |s| && s[..|p|] == p
  }

  function DigitChar(d: nat): (c: char)
    requires d < 10
    ensures c != '-'
  {
    "0123456789"[d]
  }

  /** The decimal rendering of a natural number, as template literals produce it. */
  function NatToString(n: nat): (s: string)
    ensures |s| > 0 && '-' !in s
    ensures n < 10 <==> |s| == 1
  {
    if n < 10 then [DigitChar(n)] else NatToString(n / 10) + [DigitChar(n % 10)]
  }

  /** Proof step: distinct digits render as distinct characters. */
  lemma DigitCharInjective(a: nat, b: nat)
    requires a < 10 && b < 10 && DigitChar(a) == DigitChar(b)
    ensures a == b
  {
  }

  /** Distinct numbers have distinct decimal renderings. */
  lemma {:induction false} NatToStringInjective(a: nat, b: nat)
    requires NatToString(a) == NatToString(b)
    ensures a == b
  {
    var sa, sb := NatToString(a), NatToString(b);
    if a < 10 || b < 10 {
      assert |sa| == 1 && |sb| == 1;
      DigitCharInjective(a, b);
    } else {
      assert sa[|sa| - 1] == DigitChar(a % 10) && sb[|sb| - 1] == DigitChar(b % 10);
      DigitCharInjective(a % 10, b % 10);
      assert NatToString(a / 10) == sa[..|sa| - 1] == sb[..|sb| - 1] == NatToString(b / 10);
      NatToStringInjective(a / 10, b / 10);
    }
  }

  /** The instance id `${d}${sep}${k}` of the card at position `k`. */
  function Tag(d: string, sep: string, k: nat): string {
    d + sep + NatToString(k)
  }

  /** The text after the last '-' of `s` (all of `s` if it has none). */
  function AfterLastDash(s: string): (r: string)
    ensures |r| <= |s| && r == s[|s| - |r|..] && '-' !in r
  {
    if |s| == 0 || s[|s| - 1] == '-' then "" else AfterLastDash(s[..|s| - 1]) + [s[|s| - 1]]
  }

  /** A '-' followed by a dash-free tail: the tail is what follows the last '-'. */
  lemma {:induction false} AfterLastDashOf(x: string, u: string)
    requires '-' !in u
    ensures AfterLastDash(x + "-" + u) == u
    decreases |u|
  {
    var t := x + "-" + u;
    if |u| > 0 {
      var u' := u[..|u| - 1];
      assert t[..|t| - 1] == x + "-" + u';
      AfterLastDashOf(x, u');
      assert u == u' + [u[|u| - 1]];
    }
  }

  /** With a separator that ends in '-', an instance id determines the position it was
      built from, whatever the definition ids contain. */
  lemma TagPosition(d1: string, d2: string, sep: string, k1: nat, k2: nat)
    requires |sep| > 0 && sep[|sep| - 1] == '-'
    requires Tag(d1, sep, k1) == Tag(d2, sep, k2)
    ensures k1 == k2
  {
    var x := sep[..|sep| - 1];
    assert sep == x + "-";
    assert Tag(d1, sep, k1) == (d1 + x) + "-" + NatToString(k1);
    assert Tag(d2, sep, k2) == (d2 + x) + "-" + NatToString(k2);
    AfterLastDashOf(d1 + x, NatToString(k1));
    AfterLastDashOf(d2 + x, NatToString(k2));
    NatToStringInjective(k1, k2);
  }

  /** With dash-free definition ids and a separator that starts with '-', an instance id
      determines both the definition id and the position it was built from. */
  lemma TagInjective(d1: string, d2: string, sep: string, k1: nat, k2: nat)
    requires '-' !in d1 && '-' !in d2
    requires |sep| > 0 && sep[0] == '-'
    requires Tag(d1, sep, k1) == Tag(d2, sep, k2)
    ensures d1 == d2 && k1 == k2
  {
    var t := Tag(d1, sep, k1);
    assert t == d1 + "-" + (sep[1..] + NatToString(k1));
    assert Tag(d2, sep, k2) == d2 + "-" + (sep[1..] + NatToString(k2));
    IdPrefixOfTagged(d1, sep[1..] + NatToString(k1));
    IdPrefixOfTagged(d2, sep[1..] + NatToString(k2));
    assert NatToString(k1) == t[|d1| + |sep|..] == NatToString(k2);
    NatToStringInjective(k1, k2);
  }
}
