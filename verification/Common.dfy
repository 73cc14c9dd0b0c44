/** What several modules use: options, bytes, and sequences of pointers without repetition. */
module Common {

  datatype Option<T> = None | Some(value: T)

  newtype byte = x: int | 0 <= x < 256

  /** The address of a record in memory. */
  type Ptr = nat

  function Zeros(n: nat): (z: seq<byte>)
    ensures |z| == n && forall i | 0 <= i < n :: z[i] == 0
  {
    seq(n, _ => 0)
  }

  ghost predicate NoDup(s: seq<Ptr>) {
    forall i, j | 0 <= i < j < |s| :: s[i] != s[j]
  }

  function Without(s: seq<Ptr>, i: nat): seq<Ptr>
    requires i < |s|
  {
    s[..i] + s[i + 1..]
  }

  lemma WithoutMembers(s: seq<Ptr>, i: nat)
    requires NoDup(s) && i < |s|
    ensures NoDup(Without(s, i)) && forall p: Ptr :: p in Without(s, i) <==> p in s && p != s[i]
  {
    var t := Without(s, i);
    forall j | 0 <= j < |t| ensures t[j] == s[if j < i then j else j + 1] {
    }
    forall p: Ptr | p in s && p != s[i] ensures p in t {
      var j :| 0 <= j < |s| && s[j] == p;
      assert t[if j < i then j else j - 1] == p;
    }
  }
}
