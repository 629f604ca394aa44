/**
  The two movement journals (the "hist_entrada" and "hist_saida" worksheets):
  append-only records that snapshot code, name and quantity at the moment of
  each movement, and how they account for the stock table.
 */
module Journal {
  import opened Catalog

  /** The formatted date and time of a movement, supplied by the caller. */
  type Timestamp = string

  /** The Tipo column of an inbound record. */
  datatype MovementKind = NewRegistration | Replenishment

  /** The text of the Tipo column, which tells the two kinds apart. */
  function KindName(k: MovementKind): (name: string)
    ensures name == "Novo Cadastro" <==> k == NewRegistration
    ensures name == "Reposi\U{E7}\U{E3}o" <==> k == Replenishment
  {
    match k
    case NewRegistration => "Novo Cadastro"
    case Replenishment => "Reposi\U{E7}\U{E3}o"
  }

  /** A row of the inbound journal: Data, Código, Material, Qtd, Tipo. */
  datatype Inbound = Inbound(date: Timestamp, code: string, material: string, qty: int, kind: MovementKind)

  /** A row of the outbound journal: Data, Código, Material, Qtd, Destino_Responsavel. */
  datatype Outbound = Outbound(date: Timestamp, code: string, material: string, qty: int, destination: string)

  /** Units of `code` the inbound journal records as received. */
  function Inflow(ins: seq<Inbound>, code: string): int {
    if ins == [] then 0
    else Inflow(ins[..|ins| - 1], code) + (if ins[|ins| - 1].code == code then ins[|ins| - 1].qty else 0)
  }

  /** Units of `code` the outbound journal records as issued. */
  function Outflow(outs: seq<Outbound>, code: string): int {
    if outs == [] then 0
    else Outflow(outs[..|outs| - 1], code) + (if outs[|outs| - 1].code == code then outs[|outs| - 1].qty else 0)
  }

  /**
    The journals account for the stock table: codes are unique, every row's
    balance is what its code received minus what it issued, and every journal
    record names a code the table holds.
   */
  predicate Reconciled(cat: seq<Item>, ins: seq<Inbound>, outs: seq<Outbound>) {
    && Unique(cat)
    && (forall i :: 0 <= i < |cat| ==> cat[i].qty == Inflow(ins, cat[i].code) - Outflow(outs, cat[i].code))
    && (forall k :: 0 <= k < |ins| ==> Contains(cat, ins[k].code))
    && (forall k :: 0 <= k < |outs| ==> Contains(cat, outs[k].code))
  }

  /** A code no inbound record names has received nothing. */
  lemma {:induction false} InflowAbsent(ins: seq<Inbound>, code: string)
    requires forall k :: 0 <= k < |ins| ==> ins[k].code != code
    ensures Inflow(ins, code) == 0
  {
    if ins != [] {
      InflowAbsent(ins[..|ins| - 1], code);
    }
  }

  /** A code no outbound record names has issued nothing. */
  lemma {:induction false} OutflowAbsent(outs: seq<Outbound>, code: string)
    requires forall k :: 0 <= k < |outs| ==> outs[k].code != code
    ensures Outflow(outs, code) == 0
  {
    if outs != [] {
      OutflowAbsent(outs[..|outs| - 1], code);
    }
  }

  /**
    A saved entry keeps the journals reconciled with the table: the row of
    the saved code gains exactly what its new inbound record says.
   */
  lemma RegisteredReconciles(cat: seq<Item>, ins: seq<Inbound>, outs: seq<Outbound>,
                             e: Inbound, minimum: int, category: string)
    requires Reconciled(cat, ins, outs)
    ensures Reconciled(Registered(cat, e.code, e.material, e.qty, minimum, category), ins + [e], outs)
  {
    var r := Registered(cat, e.code, e.material, e.qty, minimum, category);
    var ins' := ins + [e];
    assert ins'[..|ins'| - 1] == ins;
    RegisteredKeepsUnique(cat, e.code, e.material, e.qty, minimum, category);
    if !Contains(cat, e.code) {
      InflowAbsent(ins, e.code);
      OutflowAbsent(outs, e.code);
      assert r[|cat|].code == e.code;
    }
    forall k | 0 <= k < |ins'| ensures Contains(r, ins'[k].code) {
      if k < |ins| {
        var i :| 0 <= i < |cat| && cat[i].code == ins[k].code;
        assert r[i].code == cat[i].code;
      } else if Contains(cat, e.code) {
        RegisteredFindsKnown(cat, e.code, e.material, e.qty, minimum, category);
      } else {
        RegisteredFindsNew(cat, e.code, e.material, e.qty, minimum, category);
      }
    }
    forall k | 0 <= k < |outs| ensures Contains(r, outs[k].code) {
      var i :| 0 <= i < |cat| && cat[i].code == outs[k].code;
      assert r[i].code == cat[i].code;
    }
  }

  /**
    A withdrawal from the row holding `o.code` keeps the journals reconciled:
    that row loses exactly what the new outbound record says.
   */
  lemma DebitedReconciles(cat: seq<Item>, ins: seq<Inbound>, outs: seq<Outbound>, i: nat, o: Outbound)
    requires Reconciled(cat, ins, outs)
    requires i < |cat| && cat[i].code == o.code
    ensures Reconciled(Debited(cat, i, o.qty), ins, outs + [o])
  {
    var r := Debited(cat, i, o.qty);
    var outs' := outs + [o];
    assert outs'[..|outs'| - 1] == outs;
    forall k | 0 <= k < |ins| ensures Contains(r, ins[k].code) {
      var j :| 0 <= j < |cat| && cat[j].code == ins[k].code;
      assert r[j].code == cat[j].code;
    }
    forall k | 0 <= k < |outs'| ensures Contains(r, outs'[k].code) {
      if k < |outs| {
        var j :| 0 <= j < |cat| && cat[j].code == outs[k].code;
        assert r[j].code == cat[j].code;
      } else {
        assert r[i].code == o.code;
      }
    }
  }

  /**
    Deleting a row while its movements stay in the journals breaks the
    reconciliation: the journals go on naming a code the table no longer holds.
   */
  lemma RemoveUnreconciles(cat: seq<Item>, ins: seq<Inbound>, outs: seq<Outbound>, k: nat)
    requires k < |ins|
    ensures !Reconciled(Remove(cat, ins[k].code), ins, outs)
  {
  }
}
