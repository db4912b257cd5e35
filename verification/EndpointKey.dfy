/**
 The `host:port` text that identifies an endpoint.  Hosts with a colon are put in brackets;
 different endpoints always get different texts.
 */
module EndpointKey {

  datatype Endpoint = Endpoint(host: string, port: int)

  function Digit(n: nat): char
    requires n < 10
  {
    "0123456789"[n]
  }

  function Digits(n: nat): (text: string)
    ensures text != [] && ':' !in text && '-' !in text
    decreases n
  {
    if n < 10 then [Digit(n)] else Digits(n / 10) + [Digit(n % 10)]
  }

  function Itoa(n: int): (text: string)
    ensures text != [] && ':' !in text
  {
    if n < 0 then "-" + Digits(-n) else Digits(n)
  }

  function Bracketed(host: string): string {
    if ':' in host then "[" + host + "]" else host
  }

  /** `net.JoinHostPort` on the decimal port. */
  function Address(e: Endpoint): string {
    Bracketed(e.host) + ":" + Itoa(e.port)
  }

  /** The last digit of a number, and the digits before it. */
  lemma LastDigit(n: nat)
    ensures var s := Digits(n); s[|s| - 1] == Digit(n % 10)
    ensures var s := Digits(n); n < 10 <==> |s| == 1
    ensures var s := Digits(n); n >= 10 ==> s[..|s| - 1] == Digits(n / 10)
  {
    if n >= 10 {
      assert Digits(n) == Digits(n / 10) + [Digit(n % 10)];
    }
  }

  lemma {:induction false} DigitsInjective(a: nat, b: nat)
    requires Digits(a) == Digits(b)
    ensures a == b
    decreases a
  {
    LastDigit(a);
    LastDigit(b);
    assert a % 10 == b % 10;
    if a >= 10 {
      DigitsInjective(a / 10, b / 10);
    }
  }

  lemma SignShown(n: int)
    ensures n < 0 <==> Itoa(n)[0] == '-'
  {
    if n >= 0 {
      assert Itoa(n)[0] in Itoa(n);
    }
  }

  lemma ItoaInjective(a: int, b: int)
    requires Itoa(a) == Itoa(b)
    ensures a == b
  {
    SignShown(a);
    SignShown(b);
    if a < 0 {
      assert Itoa(a)[1..] == Digits(-a) && Itoa(b)[1..] == Digits(-b);
      DigitsInjective(-a, -b);
    } else {
      DigitsInjective(a, b);
    }
  }

  /** Where `d` holds no colon, the colon before it is the last one of the text. */
  lemma NotLonger(u: string, d: string, v: string, e: string)
    requires u + ":" + d == v + ":" + e && ':' !in e
    ensures |e| <= |d|
  {
    var s := v + ":" + e;
    assert forall k | |v| < k < |s| :: s[k] == e[k - |v| - 1];
    assert s[|u|] == ':';
  }

  /** A text is split uniquely at its last colon. */
  lemma LastColon(u: string, d: string, v: string, e: string)
    requires u + ":" + d == v + ":" + e && ':' !in d && ':' !in e
    ensures u == v && d == e
  {
    NotLonger(u, d, v, e);
    NotLonger(v, e, u, d);
    var s := u + ":" + d;
    assert s[..|u|] == u && s[..|v|] == v;
    assert s[|u| + 1..] == d && s[|v| + 1..] == e;
  }

  lemma BracketsShown(host: string)
    ensures ':' in Bracketed(host) <==> ':' in host
    ensures ':' in host ==> Bracketed(host)[1..|host| + 1] == host && |Bracketed(host)| == |host| + 2
  {
  }

  /** Different endpoints have different keys. */
  lemma AddressInjective(a: Endpoint, b: Endpoint)
    requires Address(a) == Address(b)
    ensures a == b
  {
    LastColon(Bracketed(a.host), Itoa(a.port), Bracketed(b.host), Itoa(b.port));
    ItoaInjective(a.port, b.port);
    BracketsShown(a.host);
    BracketsShown(b.host);
  }
}
