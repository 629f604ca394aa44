/**
  The inventory ledger behind the pages of the application: the stock table
  and the two movement journals, and the handlers of the "Entrada e Cadastro",
  "Saída de Material" and "Gerenciar Itens" pages that update them.
 */
module Inventory {
  import opened Wrappers
  import opened Text
  import opened Catalog
  import opened Journal

  /** Why a submitted form changed nothing. */
  datatype Rejection =
    | MissingField   // a required text field was empty
    | NotFound       // no row holds the code (or no row is at the chosen position), so the page shows no form
    | OutOfBounds    // a quantity outside the number input's bounds

  class Ledger {
    /** The "estoque" worksheet. */
    var stock: seq<Item>
    /** The "hist_entrada" worksheet. */
    var inbound: seq<Inbound>
    /** The "hist_saida" worksheet. */
    var outbound: seq<Outbound>

    constructor ()
      ensures stock == [] && inbound == [] && outbound == []
      ensures Balanced()
    {
      stock, inbound, outbound := [], [], [];
    }

    /** The journals account for every unit in stock. */
    predicate Balanced()
      reads this
    {
      Reconciled(stock, inbound, outbound)
    }

    /**
      "Salvar Registro" on the entry page. The code is stripped and
      upper-cased, the name upper-cased; with both non-empty, a known code is
      replenished and an unknown one registered, and one inbound record is
      appended either way.
     */
    method Save(rawCode: string, rawName: string, qty: int, minimum: int, category: Category, date: Timestamp)
      returns (r: Result<MovementKind, Rejection>)
      modifies this
      ensures qty < 1 ==> r == Err(OutOfBounds)
      ensures qty >= 1 && (Normalize(rawCode) == [] || rawName == []) ==> r == Err(MissingField)
      ensures r.Err? ==> stock == old(stock) && inbound == old(inbound)
      ensures r.Ok? <==> qty >= 1 && Normalize(rawCode) != [] && rawName != []
      ensures r.Ok? ==> r.value == if Contains(old(stock), Normalize(rawCode)) then Replenishment else NewRegistration
      ensures r.Ok? ==> stock == Registered(old(stock), Normalize(rawCode), Upper(rawName), qty, minimum, CategoryName(category))
      ensures r.Ok? ==> inbound == old(inbound) + [Inbound(date, Normalize(rawCode), Upper(rawName), qty, r.value)]
      ensures outbound == old(outbound)
      ensures old(Balanced()) ==> Balanced()
      ensures old(NonNegative(stock)) ==> NonNegative(stock)
    {
      if qty < 1 {
        return Err(OutOfBounds);
      }
      var code := Normalize(rawCode);
      var name := Upper(rawName);
      var known := Prefill(stock, code).known;
      if code == [] || name == [] {
        return Err(MissingField);
      }
      var kind := if known then Replenishment else NewRegistration;
      var record := Inbound(date, code, name, qty, kind);
      EntryKeepsInvariants(stock, inbound, outbound, record, minimum, CategoryName(category));
      if known {
        stock := Replenished(stock, code, qty, minimum);
      } else {
        stock := stock + [Item(code, name, qty, minimum, CategoryName(category))];
      }
      inbound := inbound + [record];
      r := Ok(kind);
    }

    /**
      "Confirmar Saída" on the withdrawal page: the first row holding the
      stripped, upper-cased code loses `qty`, which must lie between 1 and its
      balance, and one outbound record with the row's name is appended.
     */
    method Withdraw(rawCode: string, rawDestination: string, qty: int, date: Timestamp)
      returns (r: Result<Item, Rejection>)
      modifies this
      ensures var code := Normalize(rawCode);
        (code == [] || !Contains(old(stock), code)) ==> r == Err(NotFound)
      ensures r.Err? ==> stock == old(stock) && outbound == old(outbound)
      ensures r.Ok? <==> (Normalize(rawCode) != [] && Contains(old(stock), Normalize(rawCode))
        && 1 <= qty <= old(stock)[FirstIndex(old(stock), Normalize(rawCode)).value].qty && rawDestination != [])
      ensures r.Ok? ==>
        var code := Normalize(rawCode);
        var i := FirstIndex(old(stock), code).value;
        stock == Debited(old(stock), i, qty) && r.value == stock[i]
        && outbound == old(outbound) + [Outbound(date, code, old(stock)[i].material, qty, Upper(rawDestination))]
      ensures Contains(old(stock), Normalize(rawCode)) && Normalize(rawCode) != [] ==>
        var i := FirstIndex(old(stock), Normalize(rawCode)).value;
        (qty < 1 || qty > old(stock)[i].qty ==> r == Err(OutOfBounds))
        && (1 <= qty <= old(stock)[i].qty && rawDestination == [] ==> r == Err(MissingField))
      ensures inbound == old(inbound)
      ensures old(Balanced()) ==> Balanced()
      ensures old(NonNegative(stock)) ==> NonNegative(stock)
    {
      var found := Lookup(stock, rawCode);
      if found.None? {
        return Err(NotFound);
      }
      var code := Normalize(rawCode);
      var idx := found.value;
      var item := stock[idx];
      if qty < 1 || qty > item.qty {
        return Err(OutOfBounds);
      }
      var destination := Upper(rawDestination);
      if destination == [] {
        return Err(MissingField);
      }
      var record := Outbound(date, code, item.material, qty, destination);
      WithdrawalKeepsInvariants(stock, inbound, outbound, idx, record);
      stock := Debited(stock, idx, qty);
      outbound := outbound + [record];
      r := Ok(stock[idx]);
    }

    /**
      "Salvar Alterações" on the management page, for the row chosen at
      position `choice` of the selectbox: the first row holding the chosen
      code takes the new code, name, category and minimum as given, with no
      check that the new code is free; its balance stays.
     */
    method Edit(choice: nat, newCode: string, newName: string, newCategory: Category, newMinimum: int)
      returns (r: Outcome<Rejection>)
      modifies this
      ensures r == if choice < |old(stock)| then Pass else Fail(NotFound)
      ensures r.Fail? ==> stock == old(stock)
      ensures r.Pass? ==>
        var i := FirstIndex(old(stock), old(stock)[choice].code).value;
        stock == Edited(old(stock), i, newCode, newName, CategoryName(newCategory), newMinimum)
        && stock[i].qty == old(stock)[i].qty
        && (old(Unique(stock)) ==> i == choice)
      ensures inbound == old(inbound) && outbound == old(outbound)
      ensures old(NonNegative(stock)) ==> NonNegative(stock)
    {
      if choice >= |stock| {
        return Fail(NotFound);
      }
      var codeRef := SelectedCode(stock, choice);
      var idx := FirstIndex(stock, codeRef).value;
      stock := stock[idx := stock[idx].(code := newCode, material := newName)];
      stock := stock[idx := stock[idx].(category := CategoryName(newCategory), minimum := newMinimum)];
      r := Pass;
    }

    /**
      "Excluir Item Permanentemente" on the management page, for the row
      chosen at position `choice`: every row holding the chosen code is
      dropped, the rest keep their order, the journals stay.
     */
    method Delete(choice: nat) returns (r: Outcome<Rejection>)
      modifies this
      ensures r == if choice < |old(stock)| then Pass else Fail(NotFound)
      ensures r.Fail? ==> stock == old(stock)
      ensures r.Pass? ==> stock == Remove(old(stock), old(stock)[choice].code) && |stock| < |old(stock)|
      ensures r.Pass? ==> !Contains(stock, old(stock)[choice].code)
      ensures inbound == old(inbound) && outbound == old(outbound)
      ensures old(NonNegative(stock)) ==> NonNegative(stock)
      ensures old(Unique(stock)) ==> Unique(stock)
    {
      if choice >= |stock| {
        return Fail(NotFound);
      }
      var codeRef := SelectedCode(stock, choice);
      if NonNegative(stock) {
        RemoveKeepsNonNegative(stock, codeRef);
      }
      if Unique(stock) {
        RemoveKeepsUnique(stock, codeRef);
      }
      stock := Remove(stock, codeRef);
      r := Pass;
    }
  }

  /** What a saved entry of positive quantity preserves, gathered for Ledger.Save. */
  lemma EntryKeepsInvariants(cat: seq<Item>, ins: seq<Inbound>, outs: seq<Outbound>, e: Inbound, minimum: int, category: string)
    requires e.qty >= 1
    ensures NonNegative(cat) ==> NonNegative(Registered(cat, e.code, e.material, e.qty, minimum, category))
    ensures Reconciled(cat, ins, outs) ==> Reconciled(Registered(cat, e.code, e.material, e.qty, minimum, category), ins + [e], outs)
  {
    if NonNegative(cat) {
      RegisteredKeepsNonNegative(cat, e.code, e.material, e.qty, minimum, category);
    }
    if Reconciled(cat, ins, outs) {
      RegisteredReconciles(cat, ins, outs, e, minimum, category);
    }
  }

  /** What a withdrawal within the balance preserves, gathered for Ledger.Withdraw. */
  lemma WithdrawalKeepsInvariants(cat: seq<Item>, ins: seq<Inbound>, outs: seq<Outbound>, i: nat, o: Outbound)
    requires i < |cat| && cat[i].code == o.code && o.qty <= cat[i].qty
    ensures NonNegative(cat) ==> NonNegative(Debited(cat, i, o.qty))
    ensures Reconciled(cat, ins, outs) ==> Reconciled(Debited(cat, i, o.qty), ins, outs + [o])
  {
    DebitedKeepsInvariants(cat, i, o.qty);
    if Reconciled(cat, ins, outs) {
      DebitedReconciles(cat, ins, outs, i, o);
    }
  }

  /** The scanned code of the scenario, as the pages normalise it. */
  lemma ScannedCodeNormalizes()
    ensures Normalize(" a1 ") == "A1"
  {
    var s := " a1 ";
    assert IsSpace(s[0]) && s[1..] == "a1 ";
    assert !IsSpace("a1 "[0]);
    assert TrimLeft("a1 ") == "a1 ";
    var t := "a1 ";
    assert IsSpace(t[2]) && t[..2] == "a1";
    assert !IsSpace("a1"[1]);
    assert TrimRight("a1") == "a1";
    assert Strip(s) == "a1";
  }

  /** The name typed in the scenario, and the stock table after each of its steps. */
  lemma ScenarioTables()
    ensures Upper("Gloves") == "GLOVES"
    ensures Registered([], "A1", "GLOVES", 10, 5, CategoryName(Epis)) == [Item("A1", "GLOVES", 10, 5, "EPI'S")]
    ensures FirstIndex([Item("A1", "GLOVES", 10, 5, "EPI'S")], "A1") == Some(0)
    ensures Debited([Item("A1", "GLOVES", 10, 5, "EPI'S")], 0, 7) == [Item("A1", "GLOVES", 3, 5, "EPI'S")]
    ensures FirstIndex([Item("A1", "GLOVES", 3, 5, "EPI'S")], "A1") == Some(0)
  {
  }

  /**
    Gloves are registered with 10 units and a minimum of 5, 7 are issued to the
    warehouse, and a further withdrawal of 5 is refused, leaving 3 in stock and
    one outbound record.
   */
  method GlovesScenario() returns (row: Item, issued: nat, refused: Result<Item, Rejection>)
    ensures row == Item("A1", "GLOVES", 3, 5, "EPI'S")
    ensures issued == 1
    ensures refused == Err(OutOfBounds)
  {
    ScannedCodeNormalizes();
    ScenarioTables();
    var ledger := new Ledger();
    var saved := ledger.Save(" a1 ", "Gloves", 10, 5, Epis, "19/10/2026 08:00:00");
    assert ledger.stock == [Item("A1", "GLOVES", 10, 5, "EPI'S")];
    var first := ledger.Withdraw(" a1 ", "warehouse", 7, "19/10/2026 09:00:00");
    assert ledger.stock == [Item("A1", "GLOVES", 3, 5, "EPI'S")];
    refused := ledger.Withdraw(" a1 ", "warehouse", 5, "19/10/2026 10:00:00");
    row := ledger.stock[0];
    issued := |ledger.outbound|;
  }
}
