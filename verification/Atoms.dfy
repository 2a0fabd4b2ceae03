/** The interned string table: ids are positions, and looking a string up
    answers its first position. */
module Atoms {
  import opened Basics
  import opened Codec

  /** The first position holding s. */
  function FirstIndex(atoms: seq<Text>, s: Text): (r: Option<nat>)
    ensures r.Some? ==> r.value < |atoms| && atoms[r.value] == s
    ensures r.Some? ==> forall k :: 0 <= k < r.value ==> atoms[k] != s
    ensures r.None? <==> s !in atoms
  {
    if atoms == [] then None
    else
      var m := |atoms| - 1;
      var front := FirstIndex(atoms[..m], s);
      if front.Some? then front else if atoms[m] == s then Some(m) else None
  }

  ghost predicate Distinct(atoms: seq<Text>) {
    forall i, j :: 0 <= i < j < |atoms| ==> atoms[i] != atoms[j]
  }

  /** In a duplicate-free pool every id is what its text looks up. */
  lemma DistinctIndex(atoms: seq<Text>, k: nat)
    requires Distinct(atoms) && k < |atoms|
    ensures FirstIndex(atoms, atoms[k]) == Some(k)
  {
    var r := FirstIndex(atoms, atoms[k]);
    assert r.Some? && r.value <= k;
  }

  function AtomsBytes(atoms: seq<Text>): seq<Byte> {
    if atoms == [] then [] else LpString(atoms[0]) + AtomsBytes(atoms[1..])
  }

  function ReadAtoms(s: seq<Byte>, n: nat, lim: Limits): Result<(seq<Text>, seq<Byte>)>
    decreases n
  {
    hide ReadLpString;
    if n == 0 then Ok(([], s))
    else
      match ReadLpString(s, lim.maxAtomLen)
      case Err(_) => Err(BadAtomPool)
      case Ok((text, s1)) =>
        var (rest, s2) :- ReadAtoms(s1, n - 1, lim);
        Ok(([text] + rest, s2))
  }

  /** The ATOM payload: a count, then that many strings. */
  function ReadAtomPool(s: seq<Byte>, lim: Limits): Result<(seq<Text>, seq<Byte>)> {
    var (n, s1) :- ReadVarintU32(s);
    if n > lim.maxAtoms then Err(LimitExceeded) else ReadAtoms(s1, n, lim)
  }

  ghost predicate AtomsFit(atoms: seq<Text>, lim: Limits) {
    && |atoms| <= lim.maxAtoms && |atoms| < TWO32
    && forall i :: 0 <= i < |atoms| ==> |atoms[i]| <= lim.maxAtomLen && |atoms[i]| < TWO64
  }

  lemma {:induction false} ReadAtomsRoundTrip(atoms: seq<Text>, lim: Limits, rest: seq<Byte>)
    requires forall i :: 0 <= i < |atoms| ==> |atoms[i]| <= lim.maxAtomLen && |atoms[i]| < TWO64
    ensures ReadAtoms(AtomsBytes(atoms) + rest, |atoms|, lim) == Ok((atoms, rest))
  {
    hide LpString, ReadLpString;
    if atoms == [] {
      assert AtomsBytes(atoms) + rest == rest;
    } else {
      var tail := AtomsBytes(atoms[1..]) + rest;
      assert AtomsBytes(atoms) + rest == LpString(atoms[0]) + tail;
      LpStringRoundTrip(atoms[0], lim.maxAtomLen, tail);
      ReadAtomsRoundTrip(atoms[1..], lim, rest);
      assert [atoms[0]] + atoms[1..] == atoms;
    }
  }

  /** The whole pool round trips, duplicates included. */
  lemma AtomPoolRoundTrip(atoms: seq<Text>, lim: Limits, rest: seq<Byte>)
    requires AtomsFit(atoms, lim)
    ensures ReadAtomPool(Codec.Varint(|atoms|) + AtomsBytes(atoms) + rest, lim) == Ok((atoms, rest))
  {
    hide Varint, ReadVarintU32, ReadAtoms, AtomsBytes;
    assert Codec.Varint(|atoms|) + AtomsBytes(atoms) + rest == Codec.Varint(|atoms|) + (AtomsBytes(atoms) + rest);
    VarintU32RoundTrip(|atoms|, AtomsBytes(atoms) + rest);
    ReadAtomsRoundTrip(atoms, lim, rest);
  }

  class AtomPool {
    var atoms: seq<Text>
    var index: map<Text, nat>

    /** The reverse index maps exactly the strings present, each to its first
        position. */
    ghost predicate Valid()
      reads this
    {
      forall s :: (s in index <==> s in atoms) && (s in index ==> Some(index[s]) == FirstIndex(atoms, s))
    }

    constructor ()
      ensures Valid() && atoms == []
    {
      atoms := [];
      index := map[];
    }

    method Find(s: Text) returns (r: Option<nat>)
      requires Valid()
      ensures r == FirstIndex(atoms, s)
    {
      if s in index {
        return Some(index[s]);
      }
      return None;
    }

    /** Append a string; only a new one changes what lookups answer. */
    method Append(s: Text)
      requires Valid()
      modifies this
      ensures Valid() && atoms == old(atoms) + [s]
    {
      ghost var before := atoms;
      if s !in index {
        index := index[s := |atoms|];
      }
      atoms := atoms + [s];
      assert atoms[..|before|] == before;
    }

    /** The id of s, adding it if it is new. */
    method Intern(s: Text) returns (id: nat)
      requires Valid()
      modifies this
      ensures Valid() && FirstIndex(atoms, s) == Some(id)
      ensures atoms == if s in old(atoms) then old(atoms) else old(atoms) + [s]
      ensures forall t :: t in old(atoms) ==> FirstIndex(atoms, t) == old(FirstIndex(atoms, t))
    {
      if s in index {
        return index[s];
      }
      id := |atoms|;
      ghost var before := atoms;
      Append(s);
      assert atoms[..|before|] == before;
    }

    /** Replace the pool's contents with a decoded payload. */
    method Decode(r: ByteReader, lim: Limits) returns (res: Result<()>)
      requires Valid() && r.Valid()
      modifies this, r`pos
      ensures Valid() && r.Valid()
      ensures match ReadAtomPool(old(r.Rest()), lim)
              case Ok(pair) => res.Ok? && atoms == pair.0 && r.Rest() == pair.1
              case Err(code) => res == Err(code)
    {
      hide ReadVarintU32, ReadLpString;
      var n :- r.VarintU32();
      if n > lim.maxAtoms {
        return Err(LimitExceeded);
      }
      atoms, index := [], map[];
      ghost var spec := ReadAtoms(r.Rest(), n, lim);
      var i := 0;
      if spec.Ok? {
        assert [] + spec.value.0 == spec.value.0;
      }
      while i < n
        invariant 0 <= i <= n && Valid() && r.Valid()
        invariant match ReadAtoms(r.Rest(), n - i, lim)
                  case Ok(tail) => spec == Ok((atoms + tail.0, tail.1))
                  case Err(code) => spec == Err(code)
      {
        var text := r.LpString(lim.maxAtomLen);
        if text.Err? {
          return Err(BadAtomPool);
        }
        ghost var tail := ReadAtoms(r.Rest(), n - i - 1, lim);
        if tail.Ok? {
          assert atoms + ([text.value] + tail.value.0) == atoms + [text.value] + tail.value.0;
        }
        Append(text.value);
        i := i + 1;
      }
      assert atoms + [] == atoms;
      return Ok(());
    }
  }
}
