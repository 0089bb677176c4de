/** The array operations the viewer relies on: `Array.prototype.findIndex`
    and, through it, `Array.prototype.find`; and `Promise.all` over a mapped
    array, as a map that fails as a whole when one element fails. */
module Lists {
  import opened Wrappers

  /** The index of the first element satisfying `p`, or None when no element
      does (JavaScript's `findIndex` answers -1 there, `find` answers undefined). */
  function FindIndex<T>(s: seq<T>, p: T -> bool): Option<nat>
    decreases |s|
  {
    if |s| == 0 then None
    else if p(s[0]) then Some(0)
    else
      match FindIndex(s[1..], p)
      case None => None
      case Some(k) => Some(k + 1)
  }

  /** A found index holds the first element satisfying `p`; None means that
      no element satisfies it. */
  lemma {:induction false} FindIndexSpec<T>(s: seq<T>, p: T -> bool)
    ensures FindIndex(s, p).Some? ==> FindIndex(s, p).value < |s| && p(s[FindIndex(s, p).value])
    ensures FindIndex(s, p).Some? ==> forall j :: 0 <= j < FindIndex(s, p).value ==> !p(s[j])
    ensures FindIndex(s, p).None? <==> forall j :: 0 <= j < |s| ==> !p(s[j])
    decreases |s|
  {
    if |s| > 0 && !p(s[0]) {
      var tail := s[1..];
      FindIndexSpec(tail, p);
      assert forall j :: 1 <= j < |s| ==> s[j] == tail[j - 1];
    }
  }

  /** The first-match characterisation determines FindIndex completely. */
  lemma FindIndexIsFirst<T>(s: seq<T>, p: T -> bool, k: nat)
    requires k < |s| && p(s[k])
    requires forall j :: 0 <= j < k ==> !p(s[j])
    ensures FindIndex(s, p) == Some(k)
  {
    FindIndexSpec(s, p);
  }

  /** An inserted element that does not satisfy `p` leaves "no match" as it
      was. */
  lemma FindIndexNoneSkipsInserted<T>(s: seq<T>, i: nat, e: T, p: T -> bool)
    requires i <= |s| && !p(e) && FindIndex(s, p).None?
    ensures FindIndex(s[..i] + [e] + s[i..], p).None?
  {
    var t := s[..i] + [e] + s[i..];
    FindIndexSpec(s, p);
    forall j | 0 <= j < |t| ensures !p(t[j]) {
      if j < i { assert t[j] == s[j]; } else if j > i { assert t[j] == s[j - 1]; }
    }
    FindIndexSpec(t, p);
  }

  /** An inserted element that does not satisfy `p` shifts a found index
      past it when it is inserted before the match. */
  lemma FindIndexSomeSkipsInserted<T>(s: seq<T>, i: nat, e: T, p: T -> bool, k: nat)
    requires i <= |s| && !p(e) && FindIndex(s, p) == Some(k)
    ensures FindIndex(s[..i] + [e] + s[i..], p) == Some(if k < i then k else k + 1)
  {
    var t := s[..i] + [e] + s[i..];
    FindIndexSpec(s, p);
    var k' := if k < i then k else k + 1;
    assert t[k'] == s[k];
    forall j | 0 <= j < k' ensures !p(t[j]) {
      if j < i { assert t[j] == s[j]; } else if j > i { assert t[j] == s[j - 1]; }
    }
    FindIndexIsFirst(t, p, k');
  }

  /** Every element mapped by `f`, in order, or the first failure when any
      element fails. */
  function MapAll<A, B, E>(f: A -> Result<B, E>, xs: seq<A>): (r: Result<seq<B>, E>)
    ensures r.Success? ==> |r.value| == |xs|
    decreases |xs|
  {
    if |xs| == 0 then Success([])
    else
      match f(xs[0])
      case Failure(e) => Failure(e)
      case Success(first) =>
        match MapAll(f, xs[1..])
        case Failure(e) => Failure(e)
        case Success(rest) => Success([first] + rest)
  }

  /** The map succeeds exactly when every element maps, and then its i-th
      value is the i-th element mapped. */
  lemma {:induction false} MapAllSpec<A, B, E>(f: A -> Result<B, E>, xs: seq<A>)
    ensures MapAll(f, xs).Success? <==> forall i :: 0 <= i < |xs| ==> f(xs[i]).Success?
    ensures MapAll(f, xs).Success? ==> forall i :: 0 <= i < |xs| ==> Success(MapAll(f, xs).value[i]) == f(xs[i])
    decreases |xs|
  {
    if |xs| > 0 {
      var tail := xs[1..];
      MapAllSpec(f, tail);
      assert forall i :: 1 <= i < |xs| ==> xs[i] == tail[i - 1];
    }
  }
}
