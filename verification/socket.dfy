/** The connection list of a listening `Socket` (src/socket.cpp). Requests are compared by
    identity, so the element type needs only equality. */
module Socket {

  /** `addConnection`: `push_back`. */
  function AddConnection<T>(connections: seq<T>, request: T): (r: seq<T>)
    ensures |r| == |connections| + 1 && r[..|connections|] == connections
    ensures r[|connections|] == request
  {
    connections + [request]
  }

  /** How often `x` occurs in `s`. */
  function Count<T(==)>(s: seq<T>, x: T): (n: nat)
    ensures n <= |s|
    ensures n == 0 <==> x !in s
  {
    if |s| == 0 then 0 else (if s[0] == x then 1 else 0) + Count(s[1..], x)
  }

  /** The list with every `x` taken out and the rest in their order. */
  function Without<T(==)>(s: seq<T>, x: T): seq<T> {
    if |s| == 0 then []
    else if s[0] == x then Without(s[1..], x)
    else [s[0]] + Without(s[1..], x)
  }

  lemma {:induction false} WithoutSnoc<T>(s: seq<T>, y: T, x: T)
    ensures Without(s + [y], x) == Without(s, x) + (if y == x then [] else [y])
    decreases |s|
  {
    if |s| == 0 {
      assert s + [y] == [y];
    } else {
      assert (s + [y])[1..] == s[1..] + [y];
      WithoutSnoc(s[1..], y, x);
    }
  }

  /** `removeConnection`: the erase-remove idiom, which slides every element that is not
      `request` down over the ones that are, then cuts the tail off. */
  method RemoveConnection<T(==)>(connections: seq<T>, request: T) returns (r: seq<T>)
    ensures r == Without(connections, request)
  {
    r := [];
    var i := 0;
    while i < |connections|
      invariant i <= |connections|
      invariant r == Without(connections[..i], request)
    {
      WithoutSnoc(connections[..i], connections[i], request);
      assert connections[..i + 1] == connections[..i] + [connections[i]];
      r := if connections[i] == request then r else r + [connections[i]];
      i := i + 1;
    }
    assert connections[..i] == connections;
  }

  /** What is left: no `request`, every other connection, and exactly as many fewer entries as
      `request` occurred. */
  lemma {:induction false} WithoutRemoves<T>(s: seq<T>, x: T)
    ensures x !in Without(s, x)
    ensures forall y :: y in Without(s, x) <==> y in s && y != x
    ensures |Without(s, x)| == |s| - Count(s, x)
    ensures Count(s, x) == 0 ==> Without(s, x) == s
    decreases |s|
  {
    if |s| > 0 {
      WithoutRemoves(s[1..], x);
      assert s == [s[0]] + s[1..];
    }
  }

  /** The survivors keep their relative order: removing one request commutes with removing
      another, and removing it twice is the same as once. */
  lemma {:induction false} WithoutCommutes<T>(s: seq<T>, x: T, y: T)
    ensures Without(Without(s, x), y) == Without(Without(s, y), x)
    ensures Without(Without(s, x), x) == Without(s, x)
    decreases |s|
  {
    if |s| > 0 {
      WithoutCommutes(s[1..], x, y);
    }
  }

  /** Adding a request and removing it again gives back the list without it. */
  lemma {:induction false} AddThenRemove<T>(connections: seq<T>, request: T)
    ensures Without(AddConnection(connections, request), request) == Without(connections, request)
  {
    WithoutSnoc(connections, request, request);
  }
}
