/**
 * The listening address of `create_socket`: a `sockaddr_un` in the Linux
 * abstract namespace (unix(7)), where `sun_path` starts with a NUL byte and
 * the name follows it, with the address length counting exactly the family,
 * that NUL byte and the name.
 */
module Address {
  import opened Bytes

  /** `AF_LOCAL` (also spelt `AF_UNIX`). */
  const AF_LOCAL: int := 1
  /** The size of `sun_path` in a Linux `sockaddr_un`. */
  const SUN_PATH_SIZE: nat := 108
  /** `offsetof(struct sockaddr_un, sun_path)`: the two bytes of `sun_family`. */
  const SUN_PATH_OFFSET: nat := 2

  /** A C string: no NUL byte inside, so `strlen` is its length. */
  predicate CString(name: seq<byte>)
  {
    forall i :: 0 <= i < |name| ==> name[i] != 0
  }

  /** `n` zero bytes. */
  function Zeros(n: nat): (r: seq<byte>)
    ensures |r| == n && forall i :: 0 <= i < n ==> r[i] == 0
  {
    seq(n, _ => 0)
  }

  /** `sun_path` once `create_socket` has filled it for `name`: NUL, the name, then the zeros of the `memset`. */
  function AbstractPath(name: seq<byte>): seq<byte>
    requires |name| < SUN_PATH_SIZE
  {
    [0] + name + Zeros(SUN_PATH_SIZE - 1 - |name|)
  }

  /** The `addrlen` passed to `bind`. */
  function AddressLength(name: seq<byte>): nat
  {
    |name| + SUN_PATH_OFFSET + 1
  }

  /** The bytes of `sun_path` that `bind` reads for an address of length `addrlen`. */
  function BoundPath(path: seq<byte>, addrlen: nat): seq<byte>
    requires SUN_PATH_OFFSET <= addrlen <= SUN_PATH_OFFSET + |path|
  {
    path[..addrlen - SUN_PATH_OFFSET]
  }

  /**
   * The address names the abstract socket `name` and nothing more: `bind`
   * reads a leading NUL byte and then exactly the name, so the name's own
   * length and no padding decide which socket is bound.
   */
  lemma AbstractAddress(name: seq<byte>)
    requires |name| < SUN_PATH_SIZE
    ensures |AbstractPath(name)| == SUN_PATH_SIZE
    ensures AddressLength(name) <= SUN_PATH_OFFSET + SUN_PATH_SIZE
    ensures BoundPath(AbstractPath(name), AddressLength(name)) == [0] + name
  {
    assert AbstractPath(name)[..|name| + 1] == [0] + name;
  }

  /** Different names bind different addresses. */
  lemma AddressDeterminesName(a: seq<byte>, b: seq<byte>)
    requires |a| < SUN_PATH_SIZE && |b| < SUN_PATH_SIZE
    requires BoundPath(AbstractPath(a), AddressLength(a)) == BoundPath(AbstractPath(b), AddressLength(b))
    ensures a == b
  {
    AbstractAddress(a);
    AbstractAddress(b);
    assert a == ([0] + a)[1..];
    assert b == ([0] + b)[1..];
  }

  /** The `struct sockaddr_un addr` of `create_socket`. */
  class SocketAddress {
    var family: int
    const path: array<byte>

    constructor ()
      ensures path.Length == SUN_PATH_SIZE
      ensures fresh(path)
    {
      family := 0;
      path := new byte[SUN_PATH_SIZE];
    }

    /**
     * The `memset`, the assignments of `sun_family` and `sun_path[0]`, the
     * `memcpy` of the name after the NUL byte, and the resulting `addrlen`.
     */
    method Fill(name: seq<byte>) returns (addrlen: nat)
      requires path.Length == SUN_PATH_SIZE
      requires |name| < SUN_PATH_SIZE
      modifies this, path
      ensures family == AF_LOCAL
      ensures path[..] == AbstractPath(name)
      ensures addrlen == AddressLength(name)
    {
      var i := 0;
      while i < path.Length
        invariant 0 <= i <= path.Length
        invariant forall k :: 0 <= k < i ==> path[k] == 0
      {
        path[i] := 0;
        i := i + 1;
      }
      family := AF_LOCAL;
      path[0] := 0;
      var j := 0;
      while j < |name|
        invariant 0 <= j <= |name|
        invariant family == AF_LOCAL && path[0] == 0
        invariant forall k :: 0 <= k < j ==> path[1 + k] == name[k]
        invariant forall k :: 1 + j <= k < path.Length ==> path[k] == 0
      {
        path[1 + j] := name[j];
        j := j + 1;
      }
      assert path[..] == AbstractPath(name) by {
        var target := AbstractPath(name);
        assert forall k :: 0 <= k < path.Length ==> path[k] == target[k];
      }
      addrlen := AddressLength(name);
    }
  }

  /**
   * `create_socket` with the results of `socket` and `bind` as inputs:
   * -1 when either fails, the new socket otherwise; `bound` is the part of
   * `sun_path` handed to `bind` (nothing when `socket` fails first).
   */
  method CreateSocket(name: seq<byte>, socketResult: int, bindResult: int) returns (fd: int, bound: seq<byte>)
    requires CString(name) && |name| < SUN_PATH_SIZE
    ensures socketResult == -1 ==> fd == -1 && bound == []
    ensures socketResult != -1 ==> bound == [0] + name
    ensures socketResult != -1 ==> fd == (if bindResult == -1 then -1 else socketResult)
  {
    if socketResult == -1 {
      return -1, [];
    }
    var addr := new SocketAddress();
    var addrlen := addr.Fill(name);
    AbstractAddress(name);
    bound := BoundPath(addr.path[..], addrlen);
    if bindResult == -1 {
      return -1, bound;
    }
    return socketResult, bound;
  }
}
