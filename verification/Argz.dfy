/**
 Iteration over an argz vector: len bytes at address argz holding strings
 that end in NUL.  Addresses are indices into mem; 0 is the null pointer.
 */
module Argz {
  import opened Basics

  const NULL: nat := 0

  /** Some NUL at or after p: what strchr needs to stop. */
  ghost predicate HasNul(mem: seq<Byte>, p: nat) {
    exists i :: p <= i < |mem| && mem[i] == 0
  }

  /** strchr(p, '\0'). */
  function StrEnd(mem: seq<Byte>, p: nat): (e: nat)
    requires HasNul(mem, p)
    ensures p <= e < |mem| && mem[e] == 0
    ensures forall i | p <= i < e :: mem[i] != 0
    decreases |mem| - p
  {
    assert p < |mem|;
    if mem[p] == 0 then p else StrEnd(mem, p + 1)
  }

  /** __argz_next. */
  function Next(mem: seq<Byte>, argz: nat, len: nat, entry: nat): nat
    requires entry != NULL && entry < argz + len ==> HasNul(mem, entry)
  {
    if entry != NULL then
      var e := if entry < argz + len then StrEnd(mem, entry) + 1 else entry;
      if e >= argz + len then NULL else e
    else if len > 0 then argz else NULL
  }

  /** The vector lies in memory, and a NUL stops strchr in its last string, inside the vector or after it. */
  ghost predicate Readable(mem: seq<Byte>, argz: nat, len: nat) {
    && argz + len <= |mem|
    && (len > 0 ==> argz != NULL && HasNul(mem, argz + len - 1))
  }

  /** The vector is empty or its last byte is NUL. */
  ghost predicate WellFormed(mem: seq<Byte>, argz: nat, len: nat) {
    && argz + len <= |mem|
    && (len > 0 ==> argz != NULL && mem[argz + len - 1] == 0)
  }

  lemma WellFormedIsReadable(mem: seq<Byte>, argz: nat, len: nat)
    requires WellFormed(mem, argz, len)
    ensures Readable(mem, argz, len)
  {}

  /** An entry starts at the front of the vector or right after a NUL. */
  predicate IsStart(mem: seq<Byte>, argz: nat, p: nat)
    requires p <= |mem|
  {
    p == argz || (p > argz && mem[p - 1] == 0)
  }

  /** All starts from address p on, in order. */
  function StartsFrom(mem: seq<Byte>, argz: nat, len: nat, p: nat): seq<nat>
    requires argz + len <= |mem|
    decreases argz + len - p
  {
    if p >= argz + len then []
    else (if IsStart(mem, argz, p) then [p] else []) + StartsFrom(mem, argz, len, p + 1)
  }

  function Starts(mem: seq<Byte>, argz: nat, len: nat): seq<nat>
    requires argz + len <= |mem|
  {
    StartsFrom(mem, argz, len, argz)
  }

  lemma StartsUnfold(mem: seq<Byte>, argz: nat, len: nat, p: nat)
    requires argz + len <= |mem|
    ensures p >= argz + len ==> StartsFrom(mem, argz, len, p) == []
    ensures p < argz + len ==>
              StartsFrom(mem, argz, len, p) ==
              if IsStart(mem, argz, p) then [p] + StartsFrom(mem, argz, len, p + 1) else StartsFrom(mem, argz, len, p + 1)
  {}

  lemma NulAhead(mem: seq<Byte>, argz: nat, len: nat, p: nat)
    requires Readable(mem, argz, len) && p < argz + len && len > 0
    ensures HasNul(mem, p)
    ensures mem[argz + len - 1] == 0 ==> StrEnd(mem, p) < argz + len
  {
    var i :| argz + len - 1 <= i < |mem| && mem[i] == 0;
  }

  /** No entry starts inside a string. */
  lemma {:induction false} NoStartInside(mem: seq<Byte>, argz: nat, len: nat, p: nat, q: nat)
    requires argz + len <= |mem| && argz < p <= q <= argz + len
    requires forall i | p - 1 <= i < q - 1 :: mem[i] != 0
    ensures StartsFrom(mem, argz, len, p) == StartsFrom(mem, argz, len, q)
    decreases q - p
  {
    if p < q {
      NoStartInside(mem, argz, len, p + 1, q);
      assert mem[p - 1] != 0;
    }
  }

  /** From one start, the rest of the starts are those from the address after its NUL. */
  lemma StepToNext(mem: seq<Byte>, argz: nat, len: nat, p: nat)
    requires Readable(mem, argz, len) && argz <= p < argz + len && IsStart(mem, argz, p)
    ensures HasNul(mem, p)
    ensures StartsFrom(mem, argz, len, p) == [p] + StartsFrom(mem, argz, len, StrEnd(mem, p) + 1)
    ensures IsStart(mem, argz, StrEnd(mem, p) + 1)
    ensures mem[argz + len - 1] == 0 ==> StrEnd(mem, p) < argz + len
  {
    hide StartsFrom, StrEnd, HasNul;
    NulAhead(mem, argz, len, p);
    StartsUnfold(mem, argz, len, p);
    var e := StrEnd(mem, p) + 1;
    var q := if e < argz + len then e else argz + len;
    NoStartInside(mem, argz, len, p + 1, q);
    StartsUnfold(mem, argz, len, e);
    StartsUnfold(mem, argz, len, q);
  }

  /** What is still to be visited when the iteration stands at entry, which may lie past the end. */
  function Pending(mem: seq<Byte>, argz: nat, len: nat, entry: nat): seq<nat>
    requires argz + len <= |mem|
  {
    if entry == NULL then []
    else if entry >= argz + len then [entry]
    else StartsFrom(mem, argz, len, entry)
  }

  /** The iteration stands at an entry, at the front of the vector, be it empty, or at the end. */
  ghost predicate AtEntry(mem: seq<Byte>, argz: nat, len: nat, entry: nat)
    requires argz + len <= |mem|
  {
    entry != NULL ==> entry == argz || (argz <= entry < argz + len && IsStart(mem, argz, entry))
  }

  lemma NextVisits(mem: seq<Byte>, argz: nat, len: nat, entry: nat)
    requires Readable(mem, argz, len) && AtEntry(mem, argz, len, entry) && entry != NULL
    ensures entry < argz + len ==> HasNul(mem, entry)
    ensures AtEntry(mem, argz, len, Next(mem, argz, len, entry))
    ensures Pending(mem, argz, len, entry) == [entry] + Pending(mem, argz, len, Next(mem, argz, len, entry))
    ensures Next(mem, argz, len, entry) != NULL ==> Next(mem, argz, len, entry) > entry
  {
    if entry < argz + len {
      StepToNext(mem, argz, len, entry);
      hide IsStart, HasNul;
      var e := StrEnd(mem, entry) + 1;
      assert e >= argz + len ==> StartsFrom(mem, argz, len, e) == [];
    }
  }

  /** The loop both styles share: visit, step on, until the null pointer. */
  method VisitFrom(mem: seq<Byte>, argz: nat, len: nat, first: nat) returns (visited: seq<nat>)
    requires Readable(mem, argz, len) && AtEntry(mem, argz, len, first)
    ensures visited == Pending(mem, argz, len, first)
  {
    hide Pending, Next, HasNul, IsStart;
    visited := [];
    var entry := first;
    while entry != NULL
      invariant AtEntry(mem, argz, len, entry)
      invariant visited + Pending(mem, argz, len, entry) == Pending(mem, argz, len, first)
      decreases if entry == NULL then 0 else 1 + argz + len - entry
    {
      NextVisits(mem, argz, len, entry);
      ghost var next := Next(mem, argz, len, entry);
      Reassociate(visited, entry, Pending(mem, argz, len, next));
      visited := visited + [entry];
      entry := Next(mem, argz, len, entry);
    }
    NothingPending(mem, argz, len);
  }

  lemma Reassociate(s: seq<nat>, x: nat, t: seq<nat>)
    ensures s + ([x] + t) == s + [x] + t
  {}

  lemma NothingPending(mem: seq<Byte>, argz: nat, len: nat)
    requires argz + len <= |mem|
    ensures Pending(mem, argz, len, NULL) == []
  {}

  /** First style: the loop starts where a step from the null pointer leads. */
  method WhileStyle(mem: seq<Byte>, argz: nat, len: nat) returns (visited: seq<nat>)
    requires Readable(mem, argz, len)
    ensures visited == Starts(mem, argz, len)
  {
    visited := VisitFrom(mem, argz, len, Next(mem, argz, len, NULL));
  }

  /** Second style: the loop starts at the vector itself, without asking for its length. */
  method ForStyle(mem: seq<Byte>, argz: nat, len: nat) returns (visited: seq<nat>)
    requires Readable(mem, argz, len)
    ensures visited == if len == 0 && argz != NULL then [argz] else Starts(mem, argz, len)
    ensures visited == Starts(mem, argz, len) <==> len > 0 || argz == NULL
  {
    visited := VisitFrom(mem, argz, len, argz);
  }

  // ----- What the sequence of starts is -----

  function NulCount(mem: seq<Byte>, p: nat, q: nat): nat
    requires p <= q <= |mem|
    decreases q - p
  {
    if p == q then 0 else (if mem[p] == 0 then 1 else 0) + NulCount(mem, p + 1, q)
  }

  /** As many entries as NUL bytes. */
  lemma {:induction false} AsManyAsNuls(mem: seq<Byte>, argz: nat, len: nat, p: nat)
    requires WellFormed(mem, argz, len) && argz <= p < argz + len && IsStart(mem, argz, p)
    ensures |StartsFrom(mem, argz, len, p)| == NulCount(mem, p, argz + len)
    decreases argz + len - p
  {
    hide StartsFrom, IsStart;
    WellFormedIsReadable(mem, argz, len);
    StepToNext(mem, argz, len, p);
    var e := StrEnd(mem, p);
    OneNul(mem, p, e, argz + len);
    if e + 1 < argz + len {
      AsManyAsNuls(mem, argz, len, e + 1);
    } else {
      StartsUnfold(mem, argz, len, e + 1);
    }
  }

  lemma {:induction false} OneNul(mem: seq<Byte>, p: nat, e: nat, q: nat)
    requires p <= e < q <= |mem| && mem[e] == 0 && forall i | p <= i < e :: mem[i] != 0
    ensures NulCount(mem, p, q) == 1 + NulCount(mem, e + 1, q)
    decreases e - p
  {
    if p < e { OneNul(mem, p + 1, e, q); }
  }

  /** An address is listed exactly if an entry starts there. */
  lemma {:induction false} ListedExactly(mem: seq<Byte>, argz: nat, len: nat, p: nat, a: nat)
    requires argz + len <= |mem| && argz <= p
    ensures a in StartsFrom(mem, argz, len, p) <==> p <= a < argz + len && IsStart(mem, argz, a)
    decreases argz + len - p
  {
    if p < argz + len {
      ListedExactly(mem, argz, len, p + 1, a);
    }
  }

  /** Starts ascend, so none is visited twice. */
  lemma {:induction false} StartsAscend(mem: seq<Byte>, argz: nat, len: nat, p: nat, i: nat, j: nat)
    requires argz + len <= |mem| && argz <= p && i < j < |StartsFrom(mem, argz, len, p)|
    ensures StartsFrom(mem, argz, len, p)[i] < StartsFrom(mem, argz, len, p)[j]
    decreases argz + len - p
  {
    hide StartsFrom, IsStart;
    StartsUnfold(mem, argz, len, p);
    var rest := StartsFrom(mem, argz, len, p + 1);
    if !IsStart(mem, argz, p) {
      StartsAscend(mem, argz, len, p + 1, i, j);
    } else if i > 0 {
      StartsAscend(mem, argz, len, p + 1, i - 1, j - 1);
    } else {
      ListedExactly(mem, argz, len, p + 1, rest[j - 1]);
    }
  }

  // ----- Round trip: the strings put in are the strings read back -----

  /** The vector made of the given strings. */
  function Encode(strs: seq<seq<Byte>>): seq<Byte> {
    if strs == [] then [] else strs[0] + [0] + Encode(strs[1..])
  }

  ghost predicate NoNul(s: seq<Byte>) {
    forall i | 0 <= i < |s| :: s[i] != 0
  }

  /** The strings read at a list of addresses. */
  ghost predicate ReadsAs(mem: seq<Byte>, at: seq<nat>, strs: seq<seq<Byte>>) {
    && |at| == |strs|
    && forall k | 0 <= k < |at| :: HasNul(mem, at[k]) && mem[at[k]..StrEnd(mem, at[k])] == strs[k]
  }

  lemma {:induction false} EncodeEndsInNul(strs: seq<seq<Byte>>)
    requires strs != []
    ensures |Encode(strs)| > 0 && Encode(strs)[|Encode(strs)| - 1] == 0
  {
    if |strs| > 1 {
      EncodeEndsInNul(strs[1..]);
      assert Encode(strs)[|Encode(strs)| - 1] == Encode(strs[1..])[|Encode(strs[1..])| - 1];
    } else {
      assert Encode(strs[1..]) == [];
    }
  }

  /** Iterating over the encoding of a list of NUL-free strings, at any non-null address in any memory, reads back that list. */
  lemma EncodeThenIterate(mem: seq<Byte>, argz: nat, strs: seq<seq<Byte>>)
    requires argz != NULL && argz + |Encode(strs)| <= |mem|
    requires mem[argz..argz + |Encode(strs)|] == Encode(strs)
    requires forall k | 0 <= k < |strs| :: NoNul(strs[k])
    ensures WellFormed(mem, argz, |Encode(strs)|)
    ensures var at := Starts(mem, argz, |Encode(strs)|);
            && |at| == |strs|
            && forall k | 0 <= k < |at| ::
                 at[k] + |strs[k]| < |mem| && mem[at[k]..at[k] + |strs[k]|] == strs[k] && mem[at[k] + |strs[k]|] == 0
  {
    hide Encode, StartsFrom, ReadsAs, HasNul, NoNul;
    var code := Encode(strs);
    if strs != [] {
      EncodeEndsInNul(strs);
      assert mem[argz + |code| - 1] == mem[argz..argz + |code|][|code| - 1];
    } else {
      EncodeNothing();
    }
    ReadBack(mem, argz, |code|, argz, strs);
    ReadsExactly(mem, Starts(mem, argz, |code|), strs);
  }

  lemma EncodeNothing()
    ensures Encode([]) == []
  {}

  lemma ReadsExactly(mem: seq<Byte>, at: seq<nat>, strs: seq<seq<Byte>>)
    requires ReadsAs(mem, at, strs)
    ensures |at| == |strs|
    ensures forall k | 0 <= k < |at| ::
              at[k] + |strs[k]| < |mem| && mem[at[k]..at[k] + |strs[k]|] == strs[k] && mem[at[k] + |strs[k]|] == 0
  {
    forall k | 0 <= k < |at|
      ensures at[k] + |strs[k]| < |mem| && mem[at[k]..at[k] + |strs[k]|] == strs[k] && mem[at[k] + |strs[k]|] == 0
    {
      assert |mem[at[k]..StrEnd(mem, at[k])]| == |strs[k]|;
    }
  }

  lemma {:induction false} ReadBack(mem: seq<Byte>, argz: nat, len: nat, p: nat, strs: seq<seq<Byte>>)
    requires WellFormed(mem, argz, len) && argz <= p <= argz + len && IsStart(mem, argz, p)
    requires mem[p..argz + len] == Encode(strs)
    requires forall k | 0 <= k < |strs| :: NoNul(strs[k])
    ensures ReadsAs(mem, StartsFrom(mem, argz, len, p), strs)
    decreases |strs|
  {
    hide StartsFrom, ReadsAs, IsStart, HasNul, Encode, NoNul, StrEnd;
    if strs == [] {
      NothingToRead(mem, argz, len, p);
    } else {
      WellFormedIsReadable(mem, argz, len);
      var s, rest := strs[0], strs[1..];
      EncodeFirst(strs);
      FirstString(mem, p, argz + len, s, Encode(rest));
      var e := p + |s|;
      StepToNext(mem, argz, len, p);
      assert StrEnd(mem, p) == e;
      ReadBack(mem, argz, len, e + 1, rest);
      ReadsCons(mem, p, StartsFrom(mem, argz, len, e + 1), s, rest);
      assert strs == [s] + rest;
    }
  }

  lemma NothingToRead(mem: seq<Byte>, argz: nat, len: nat, p: nat)
    requires argz <= p <= argz + len <= |mem| && mem[p..argz + len] == Encode([])
    ensures ReadsAs(mem, StartsFrom(mem, argz, len, p), [])
  {
    assert |mem[p..argz + len]| == 0;
  }

  lemma EncodeFirst(strs: seq<seq<Byte>>)
    requires strs != []
    ensures Encode(strs) == strs[0] + [0] + Encode(strs[1..])
  {}

  lemma FirstString(mem: seq<Byte>, p: nat, q: nat, s: seq<Byte>, tail: seq<Byte>)
    requires p <= q <= |mem| && mem[p..q] == s + [0] + tail && NoNul(s)
    ensures p + |s| < q && mem[p + |s|] == 0
    ensures forall i | p <= i < p + |s| :: mem[i] != 0
    ensures mem[p..p + |s|] == s
    ensures mem[p + |s| + 1..q] == tail
  {
    var m := mem[p..q];
    assert m[|s|] == 0 && m[..|s|] == s && m[|s| + 1..] == tail;
    forall i | p <= i < p + |s| ensures mem[i] != 0 {
      assert m[i - p] == s[i - p];
    }
  }

  lemma ReadsCons(mem: seq<Byte>, p: nat, at: seq<nat>, s: seq<Byte>, strs: seq<seq<Byte>>)
    requires ReadsAs(mem, at, strs) && HasNul(mem, p) && mem[p..StrEnd(mem, p)] == s
    ensures ReadsAs(mem, [p] + at, [s] + strs)
  {}
}
