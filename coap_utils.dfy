// The CoAP proxy's helpers: timeval subtraction with carry, and the
// address comparison used to recognise a returning client.

module CoapUtils {
  import opened Bytes

  const USEC_PER_SEC: int := 1000000

  /** struct timeval: whole seconds and microseconds, either of which may
      be out of the usual range once a subtraction has normalised it. */
  datatype Timeval = Timeval(sec: int, usec: int)

  /** The instant a timeval denotes, in microseconds. */
  function Micros(t: Timeval): int
  {
    t.sec * USEC_PER_SEC + t.usec
  }

  predicate InRange(t: Timeval)
  {
    0 <= t.usec < USEC_PER_SEC
  }

  /** What timeval_subtract leaves behind: the difference it writes to
      *result, the value it stores back through y, and its return value. */
  datatype Subtraction = Subtraction(result: Timeval, newY: Timeval, negative: bool)

  /** timeval_subtract(result, x, y): y is first carried so that
      x.usec - y.usec lies in [0, 1000000], then result = x - y and the
      answer is whether x.sec < y.sec. Both divisions have a positive
      dividend, so C's truncating division agrees with Dafny's. */
  function Subtract(x: Timeval, y: Timeval): (s: Subtraction)
    ensures Micros(s.newY) == Micros(y)
    ensures Micros(s.result) == Micros(x) - Micros(y)
    ensures 0 <= s.result.usec <= USEC_PER_SEC
    ensures s.negative <==> s.result.sec < 0
  {
    var y1 :=
      if x.usec < y.usec then
        var nsec := (y.usec - x.usec) / USEC_PER_SEC + 1;
        Timeval(y.sec + nsec, y.usec - USEC_PER_SEC * nsec)
      else y;
    var y2 :=
      if x.usec - y1.usec > USEC_PER_SEC then
        var nsec := (x.usec - y1.usec) / USEC_PER_SEC;
        Timeval(y1.sec - nsec, y1.usec + USEC_PER_SEC * nsec)
      else y1;
    Subtraction(Timeval(x.sec - y2.sec, x.usec - y2.usec), y2, x.sec < y2.sec)
  }

  /** On two in-range timevals the difference is in range as well, and the
      answer is exactly whether x is earlier than y. */
  lemma SubtractInRange(x: Timeval, y: Timeval)
    requires InRange(x) && InRange(y)
    ensures InRange(Subtract(x, y).result)
    ensures Subtract(x, y).negative <==> Micros(x) < Micros(y)
  {
    var s := Subtract(x, y);
    if x.usec < y.usec {
      assert (y.usec - x.usec) / USEC_PER_SEC == 0;
    }
    assert s.result.usec < USEC_PER_SEC;
  }

  /** Whatever the inputs, a negative answer means x is not later than y,
      and a non-negative one means x is not earlier. */
  lemma SubtractSign(x: Timeval, y: Timeval)
    ensures Subtract(x, y).negative ==> Micros(x) <= Micros(y)
    ensures !Subtract(x, y).negative ==> Micros(x) >= Micros(y)
  {
    var s := Subtract(x, y);
    if s.negative {
      assert s.result.sec <= -1;
      assert Micros(s.result) <= 0;
    } else {
      assert s.result.sec >= 0;
      assert Micros(s.result) >= 0;
    }
  }

  /** Out of range the answer is not strict: x = (1, 0) and
      y = (0, 1000000) are the same instant, yet the answer is "negative". */
  lemma SubtractNegativeAtEqual()
    ensures Micros(Timeval(0, 1000000)) == Micros(Timeval(1, 0))
    ensures Subtract(Timeval(1, 0), Timeval(0, 1000000)).negative
  {
  }

  const AF_INET: uint16 := 2
  const AF_INET6: uint16 := 10

  /** struct sockaddr_storage as far as compare_sockaddr reads it: the
      family, the port and, for IPv4, the address; the IPv6 address is
      kept but never compared. */
  datatype SockAddr = SockAddr(family: uint16, port: uint16, v4: uint32, v6: seq<uint8>)

  /** The addresses compare_sockaddr treats as one client. */
  predicate SameClient(a1: SockAddr, a2: SockAddr)
  {
    a1.family == a2.family &&
    ((a1.family == AF_INET && a1.port == a2.port && a1.v4 == a2.v4) ||
     (a1.family == AF_INET6 && a1.port == a2.port))
  }

  /** compare_sockaddr: 0 for the same client, otherwise the first field
      that differs (1 family, 2 IPv4 port, 3 IPv4 address, 4 IPv6 port),
      and 6 for a family that is neither. */
  function CompareSockaddr(a1: SockAddr, a2: SockAddr): (r: int)
    ensures r == 0 <==> SameClient(a1, a2)
    ensures r == 1 <==> a1.family != a2.family
    ensures r == 2 <==> a1.family == a2.family == AF_INET && a1.port != a2.port
    ensures r == 3 <==> a1.family == a2.family == AF_INET && a1.port == a2.port && a1.v4 != a2.v4
    ensures r == 4 <==> a1.family == a2.family == AF_INET6 && a1.port != a2.port
    ensures r == 6 <==> a1.family == a2.family && a1.family != AF_INET && a1.family != AF_INET6
  {
    if a1.family != a2.family then 1
    else if a1.family == AF_INET then
      if a1.port != a2.port then 2
      else if a1.v4 != a2.v4 then 3
      else 0
    else if a1.family == AF_INET6 then
      if a1.port != a2.port then 4
      else 0
    else 6
  }

  /** The comparison does not depend on the order of its arguments. */
  lemma CompareSockaddrSymmetric(a1: SockAddr, a2: SockAddr)
    ensures CompareSockaddr(a1, a2) == CompareSockaddr(a2, a1)
  {
  }

  /** An address is the same client as itself exactly when its family is
      IPv4 or IPv6; two IPv6 addresses on one port are one client. */
  lemma CompareSockaddrSelf(a: SockAddr, b: SockAddr)
    ensures CompareSockaddr(a, a) == 0 <==> a.family in {AF_INET, AF_INET6}
    ensures a.family == b.family == AF_INET6 && a.port == b.port ==> CompareSockaddr(a, b) == 0
  {
  }
}
