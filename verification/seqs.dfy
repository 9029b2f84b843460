/** Sequences of list nodes in link order and the edits the list
    operations make to them: inserting one node, removing one, splicing in
    the elements of another list. */
module Seqs {

  /** No element occurs twice in r. */
  ghost predicate Distinct<T>(r: seq<T>)
  {
    forall i, j :: 0 <= i < j < |r| ==> r[i] != r[j]
  }

  /** r with x inserted at position pos, between r[pos - 1] and r[pos]. */
  ghost function InsertAt<T>(r: seq<T>, pos: nat, x: T): (t: seq<T>)
    requires pos <= |r|
    ensures |t| == |r| + 1 && t[pos] == x
    ensures forall p {:trigger t[p]} :: 0 <= p < pos ==> t[p] == r[p]
    ensures forall p {:trigger t[p]} :: pos < p < |t| ==> t[p] == r[p - 1]
  {
    r[..pos] + [x] + r[pos..]
  }

  /** r without its element at position k. */
  ghost function Without<T>(r: seq<T>, k: nat): (t: seq<T>)
    requires k < |r|
    ensures |t| == |r| - 1
    ensures forall p {:trigger t[p]} :: 0 <= p < k ==> t[p] == r[p]
    ensures forall p {:trigger t[p]} :: k <= p < |t| ==> t[p] == r[p + 1]
  {
    r[..k] + r[k + 1..]
  }

  /** No element occurs in both r and s. */
  ghost predicate Disjoint<T>(r: seq<T>, s: seq<T>)
  {
    forall i, j :: 0 <= i < |r| && 0 <= j < |s| ==> r[i] != s[j]
  }

  /** r with s[1..], the elements of a list whose head is s[0], inserted
      in order at position pos. */
  ghost function Spliced<T>(r: seq<T>, pos: nat, s: seq<T>): (t: seq<T>)
    requires pos <= |r| && |s| >= 1
    ensures |t| == |r| + |s| - 1
    ensures forall p {:trigger t[p]} :: 0 <= p < pos ==> t[p] == r[p]
    ensures forall p {:trigger t[p]} :: pos <= p < pos + |s| - 1 ==> t[p] == s[p - pos + 1]
    ensures forall p {:trigger t[p]} :: pos + |s| - 1 <= p < |t| ==> t[p] == r[p - |s| + 1]
  {
    r[..pos] + s[1..] + r[pos..]
  }

  /** The elements of two disjoint duplicate-free sequences stay distinct
      when one is spliced into the other. */
  lemma SplicedDistinct<T>(r: seq<T>, pos: nat, s: seq<T>)
    requires Distinct(r) && Distinct(s) && Disjoint(r, s)
    requires pos <= |r| && |s| >= 1
    ensures Distinct(Spliced(r, pos, s))
  {
    var n, m, t := |r|, |s| - 1, Spliced(r, pos, s);
    forall i, j | 0 <= i < j < n + m
      ensures t[i] != t[j]
    {
      if i < pos && j < pos {
        assert t[i] == r[i] && t[j] == r[j];
      } else if i < pos && j < pos + m {
        assert t[i] == r[i] && t[j] == s[j - pos + 1];
      } else if i < pos {
        assert t[i] == r[i] && t[j] == r[j - m];
      } else if j < pos + m {
        assert t[i] == s[i - pos + 1] && t[j] == s[j - pos + 1];
      } else if i < pos + m {
        assert t[i] == s[i - pos + 1] && t[j] == r[j - m];
      } else {
        assert t[i] == r[i - m] && t[j] == r[j - m];
      }
    }
  }
}
