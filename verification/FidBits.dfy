/** Identifiers as words and as sets of bits: the tests that `Forwarder::push` in src/forwarder.cc makes
    on bit vectors are those that the network of forwarders is described with. */
module FidBits {
  import opened BitVector
  import F = Forwarding

  // The positions of the one-bits.
  ghost function Ones(v: BABitvector): set<nat>
    requires v.Valid()
    reads v
  {
    set p: nat | 0 <= p <= v.max && At(v.data, p)
  }

  // An identifier as the forwarder holds it.
  ghost predicate IsFid(v: BABitvector)
    reads v
  {
    v.Clean() && v.max == F.WIDTH - 1
  }

  /** Negating a copy and asking for zero recognises the identifier with all bits set. */
  method AllOnes(fid: BABitvector) returns (all: bool)
    requires IsFid(fid)
    ensures all <==> F.AllOnes(Ones(fid))
  {
    hide At;
    all := fid.AllOnes();
    assert forall p: nat :: p <= fid.max ==> (p in Ones(fid) <==> At(fid.data, p));
  }

  /** Comparing the bitwise and with the LID is containment. */
  method Matches(fid: BABitvector, lid: BABitvector) returns (matches: bool)
    requires IsFid(fid) && IsFid(lid)
    ensures matches <==> Ones(lid) <= Ones(fid)
  {
    hide At;
    var both := new BABitvector.Copy(fid);
    both.AndWith(lid);
    matches := both.Equals(lid);
    assert forall p: nat :: p <= fid.max ==> (p in Ones(fid) <==> At(fid.data, p)) && (p in Ones(lid) <==> At(lid.data, p));
    if matches {
      forall p | p in Ones(lid)
        ensures p in Ones(fid)
      {
        assert At(both.data, p) <==> At(lid.data, p);
      }
    }
  }

  // A table entry as the forwarder holds it.
  datatype Entry = Entry(src: nat, dst: nat, lid: BABitvector)

  ghost predicate IsTable(table: seq<Entry>)
    reads set i | 0 <= i < |table| :: table[i].lid
  {
    forall i :: 0 <= i < |table| ==> IsFid(table[i].lid)
  }

  ghost function SetEntry(e: Entry): F.Entry
    requires IsFid(e.lid)
    reads e.lid
  {
    F.Entry(e.src, e.dst, Ones(e.lid))
  }

  /** The forwarder on vectors makes the choices of `Forwarding.PushNetwork` on sets. */
  method PushNetwork(mac: bool, fid: BABitvector, src: nat, dst: nat, table: seq<Entry>, ilid: BABitvector)
    returns (outs: seq<nat>, local: bool)
    requires IsFid(fid) && IsFid(ilid) && IsTable(table)
    ensures F.Increasing(outs) && (local <==> Ones(ilid) <= Ones(fid))
    ensures forall i: nat :: i in outs <==>
      i < |table| && !F.AllOnes(Ones(fid)) && Ones(table[i].lid) <= Ones(fid) && !F.Skips(mac, src, dst, SetEntry(table[i]))
  {
    hide At, F.AllOnes;
    outs := [];
    var all := AllOnes(fid);
    if !all {
      for i := 0 to |table|
        invariant F.Increasing(outs)
        invariant forall k: nat :: k in outs <==> k < i && Ones(table[k].lid) <= Ones(fid) && !F.Skips(mac, src, dst, SetEntry(table[k]))
      {
        var fe := table[i];
        var matches := Matches(fid, fe.lid);
        if matches && !((src == fe.dst && dst == fe.src) || (mac && (src == fe.src || dst == fe.dst))) {
          assert forall k :: 0 <= k < |outs| ==> outs[k] in outs;
          outs := outs + [i];
        }
      }
    }
    local := Matches(fid, ilid);
  }
}
