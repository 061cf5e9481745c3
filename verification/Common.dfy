/** Small notions that several modules share. */
module Common {

  datatype Option<T> = None | Some(value: T)

  /** An 8-bit code unit or a byte on the wire. */
  type Byte = c: char | c as int < 256 witness '\0'

  type Bytes = seq<Byte>

  /** The text `w` stands in `s` at `p`. */
  predicate Stands(s: string, p: nat, w: string) {
    p + |w| <= |s| && forall k :: 0 <= k < |w| ==> s[p + k] == w[k]
  }

  lemma StandsConcat(s: string, p: nat, v: string, w: string)
    requires Stands(s, p, v + w)
    ensures Stands(s, p, v) && Stands(s, p + |v|, w)
  {
    assert forall k :: 0 <= k < |v| ==> v[k] == (v + w)[k];
    assert forall k :: 0 <= k < |w| ==> w[k] == (v + w)[|v| + k];
  }

  /** Two neighbouring parts. */
  lemma SlicesJoin<T>(s: seq<T>, a: nat, m: nat, b: nat)
    requires a <= m <= b <= |s|
    ensures s[a..b] == s[a..m] + s[m..b]
  {
    forall k | 0 <= k < b - a ensures s[a..b][k] == (s[a..m] + s[m..b])[k] {
      assert s[a..b][k] == s[a + k];
      if k < m - a { assert (s[a..m] + s[m..b])[k] == s[a..m][k]; }
      else { assert (s[a..m] + s[m..b])[k] == s[m..b][k - (m - a)]; }
    }
    assert |s[a..b]| == |s[a..m] + s[m..b]|;
  }

  /** Texts that agree up to `n` have the same parts there. */
  lemma SameSlice<T>(s: seq<T>, t: seq<T>, n: nat, a: nat, b: nat)
    requires n <= |s| && n <= |t| && s[..n] == t[..n] && a <= b <= n
    ensures s[a..b] == t[a..b]
    ensures b < n ==> s[b] == t[b]
  {
    forall k | 0 <= k < n ensures s[k] == t[k] {
      assert s[..n][k] == s[k] && t[..n][k] == t[k];
    }
    forall k | 0 <= k < b - a ensures s[a..b][k] == t[a..b][k] {
      assert s[a..b][k] == s[a + k] && t[a..b][k] == t[a + k];
    }
  }

  lemma Assoc<T>(a: seq<T>, b: seq<T>, c: seq<T>)
    ensures a + b + c == a + (b + c)
  {
  }

  lemma StandsAsSlice(s: string, p: nat, w: string)
    ensures Stands(s, p, w) <==> p + |w| <= |s| && s[p..p + |w|] == w
  {
    if p + |w| <= |s| && s[p..p + |w|] == w {
      forall k | 0 <= k < |w| ensures s[p + k] == w[k] { assert w[k] == s[p..p + |w|][k]; }
    }
  }

  lemma SliceStands(s: string, a: nat, b: nat)
    requires a <= b <= |s|
    ensures Stands(s, a, s[a..b]) && |s[a..b]| == b - a
  {
    StandsAsSlice(s, a, s[a..b]);
  }

  lemma StandsJoin(s: string, p: nat, v: string, w: string)
    requires Stands(s, p, v) && Stands(s, p + |v|, w)
    ensures Stands(s, p, v + w)
  {
    forall k | 0 <= k < |v + w| ensures s[p + k] == (v + w)[k] {
      if k >= |v| { assert s[p + |v| + (k - |v|)] == w[k - |v|]; }
    }
  }

  lemma FirstStands(s: string, p: nat, w: string)
    requires Stands(s, p, w) && w != ""
    ensures p < |s| && s[p] == w[0]
  {
    assert s[p + 0] == w[0];
  }

  lemma CharStands(s: string, p: nat, w: string, k: nat)
    requires Stands(s, p, w)
    ensures k < |w| ==> p + k < |s| && s[p + k] == w[k]
  {
  }

  lemma NothingStands(s: string, p: nat)
    requires p <= |s|
    ensures Stands(s, p, "")
  {
  }

  lemma WholeStands(w: string)
    ensures Stands(w, 0, w)
  {
  }
}
