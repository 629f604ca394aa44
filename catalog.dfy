/**
  The stock table (the "estoque" worksheet): one row per material, and the
  pure rules the entry, withdrawal and management pages apply to it.
 */
module Catalog {
  import opened Wrappers
  import opened Text

  /** The choices of the category selectbox, in the order of `CATEGORIAS`. */
  datatype Category = Epis | Ferramentas | Escritorio | Outros

  const Categories: seq<Category> := [Epis, Ferramentas, Escritorio, Outros]

  /** The text a category is stored as in the Categoria column. */
  function CategoryName(c: Category): string {
    match c
    case Epis => "EPI'S"
    case Ferramentas => "FERRAMENTAS"
    case Escritorio => "ESCRIT\U{D3}RIO"
    case Outros => "OUTROS"
  }

  /**
    The selectbox position the entry form starts at for a stored category:
    its place in `CATEGORIAS`, or 0 when the stored text is none of them.
   */
  function CategoryIndex(name: string): (i: nat)
    ensures i < |Categories|
    ensures (exists c :: CategoryName(c) == name) ==> CategoryName(Categories[i]) == name
    ensures (forall c :: CategoryName(c) != name) ==> i == 0
  {
    if name == CategoryName(Epis) then 0
    else if name == CategoryName(Ferramentas) then 1
    else if name == CategoryName(Escritorio) then 2
    else if name == CategoryName(Outros) then 3
    else 0
  }

  /** A category written by a form is read back as the same choice. */
  lemma CategoryRoundTrip(c: Category)
    ensures Categories[CategoryIndex(CategoryName(c))] == c
  {
    var s := CategoryName(c);
    assert |CategoryName(Epis)| == 5 && |CategoryName(Ferramentas)| == 11;
    assert |CategoryName(Escritorio)| == 10 && |CategoryName(Outros)| == 6;
    assert CategoryName(Categories[CategoryIndex(s)]) == s;
  }

  /** One row of the stock table: Código, Material, Qtd, Mínimo, Categoria. */
  datatype Item = Item(code: string, material: string, qty: int, minimum: int, category: string)

  predicate Contains(cat: seq<Item>, code: string) {
    exists i :: 0 <= i < |cat| && cat[i].code == code
  }

  /** No two rows share a code. */
  predicate Unique(cat: seq<Item>) {
    forall i, j :: 0 <= i < j < |cat| ==> cat[i].code != cat[j].code
  }

  /** No row holds a negative balance. */
  predicate NonNegative(cat: seq<Item>) {
    forall i :: 0 <= i < |cat| ==> cat[i].qty >= 0
  }

  /** The position of the first row whose code equals `code` exactly. */
  function FirstIndex(cat: seq<Item>, code: string): (r: Option<nat>)
    ensures r.Some? ==> r.value < |cat| && cat[r.value].code == code
    ensures r.Some? ==> forall j :: 0 <= j < r.value ==> cat[j].code != code
    ensures r.None? <==> !Contains(cat, code)
  {
    if cat == [] then None
    else if cat[0].code == code then Some(0)
    else
      match FirstIndex(cat[1..], code)
      case None =>
        assert forall i :: 1 <= i < |cat| ==> cat[i] == cat[1..][i - 1];
        None
      case Some(i) => Some(i + 1)
  }

  /** With unique codes, the row found for a code is the only row with it. */
  lemma FirstIndexOfUnique(cat: seq<Item>, i: nat)
    requires Unique(cat) && i < |cat|
    ensures FirstIndex(cat, cat[i].code) == Some(i)
  {
  }

  /**
    The position of the row a typed or scanned code selects: the code is
    stripped and upper-cased, a blank code selects nothing, and otherwise the
    first row whose code is exactly equal is selected.
   */
  function Lookup(cat: seq<Item>, raw: string): (r: Option<nat>)
    ensures r.Some? <==> Normalize(raw) != [] && Contains(cat, Normalize(raw))
    ensures r.Some? ==> r.value < |cat| && cat[r.value].code == Normalize(raw)
    ensures r.Some? ==> forall j :: 0 <= j < r.value ==> cat[j].code != Normalize(raw)
  {
    var code := Normalize(raw);
    if code == [] then None else FirstIndex(cat, code)
  }

  /** What the entry form is pre-filled with for a scanned code. */
  datatype FormDefaults = FormDefaults(name: string, categoryIndex: nat, minimum: int, known: bool)

  /** The minimum the entry form proposes for a code it does not know. */
  const DefaultMinimum: int := 5

  /**
    The entry form's defaults for an already normalised code: the first
    matching row's name, category position and minimum, or blanks with the
    default minimum when the code is empty, the table is empty or the code is
    absent.
   */
  function Prefill(cat: seq<Item>, code: string): (d: FormDefaults)
    ensures d.known <==> code != [] && Contains(cat, code)
    ensures d.categoryIndex < |Categories|
    ensures !d.known ==> d == FormDefaults("", 0, DefaultMinimum, false)
    ensures d.known ==> exists i :: (0 <= i < |cat| && cat[i].code == code
      && (forall j :: 0 <= j < i ==> cat[j].code != code)
      && d == FormDefaults(cat[i].material, CategoryIndex(cat[i].category), cat[i].minimum, true))
  {
    if code == [] || cat == [] then FormDefaults("", 0, DefaultMinimum, false)
    else
      match FirstIndex(cat, code)
      case None => FormDefaults("", 0, DefaultMinimum, false)
      case Some(i) => FormDefaults(cat[i].material, CategoryIndex(cat[i].category), cat[i].minimum, true)
  }

  /**
    Replenishment of a known code: every row with the code gets `qty` added to
    its balance and its minimum overwritten; its name and category stay.
   */
  function Replenished(cat: seq<Item>, code: string, qty: int, minimum: int): (r: seq<Item>)
    ensures |r| == |cat|
    ensures forall i :: 0 <= i < |cat| ==>
      r[i].code == cat[i].code && r[i].material == cat[i].material && r[i].category == cat[i].category
    ensures forall i :: 0 <= i < |cat| && cat[i].code == code ==>
      r[i].qty == cat[i].qty + qty && r[i].minimum == minimum
    ensures forall i :: 0 <= i < |cat| && cat[i].code != code ==> r[i] == cat[i]
  {
    if cat == [] then []
    else
      var head := if cat[0].code == code then cat[0].(qty := cat[0].qty + qty, minimum := minimum) else cat[0];
      [head] + Replenished(cat[1..], code, qty, minimum)
  }

  /**
    The stock table after a saved entry: a known code is replenished, an
    unknown one is appended as a new row at the end.
   */
  function Registered(cat: seq<Item>, code: string, name: string, qty: int, minimum: int, category: string): (r: seq<Item>)
    ensures |r| == if Contains(cat, code) then |cat| else |cat| + 1
    ensures forall i :: 0 <= i < |cat| ==> r[i].code == cat[i].code
    ensures forall i :: 0 <= i < |cat| && cat[i].code != code ==> r[i] == cat[i]
    ensures Contains(r, code)
  {
    if Contains(cat, code) then Replenished(cat, code, qty, minimum)
    else
      var r := cat + [Item(code, name, qty, minimum, category)];
      assert r[|cat|].code == code;
      r
  }

  /** Saving a known code: the same first row is found, holding its old balance plus `qty`, under the new minimum. */
  lemma RegisteredFindsKnown(cat: seq<Item>, code: string, name: string, qty: int, minimum: int, category: string)
    requires Contains(cat, code)
    ensures var r := Registered(cat, code, name, qty, minimum, category);
      var i := FirstIndex(cat, code).value;
      FirstIndex(r, code) == Some(i) && r[i].qty == cat[i].qty + qty && r[i].minimum == minimum
  {
    var r := Replenished(cat, code, qty, minimum);
    var i := FirstIndex(cat, code).value;
    assert r[i].code == code;
    assert forall j :: 0 <= j < i ==> r[j].code == cat[j].code;
  }

  /** Saving an unknown code: it is found in the one new row, appended after all the old ones. */
  lemma RegisteredFindsNew(cat: seq<Item>, code: string, name: string, qty: int, minimum: int, category: string)
    requires !Contains(cat, code)
    ensures var r := Registered(cat, code, name, qty, minimum, category);
      FirstIndex(r, code) == Some(|cat|) && r == cat + [Item(code, name, qty, minimum, category)]
  {
    var r := cat + [Item(code, name, qty, minimum, category)];
    assert r[|cat|].code == code;
    assert forall j :: 0 <= j < |cat| ==> r[j] == cat[j];
  }

  /**
    Registering a new code and then saving it again yields one row whose
    balance is the sum of both quantities, with the first save's name and
    category and the second save's minimum.
   */
  lemma RegisterTwice(cat: seq<Item>, code: string, name1: string, qty1: int, min1: int, cat1: string,
                      name2: string, qty2: int, min2: int, cat2: string)
    requires !Contains(cat, code)
    ensures Registered(Registered(cat, code, name1, qty1, min1, cat1), code, name2, qty2, min2, cat2)
      == cat + [Item(code, name1, qty1 + qty2, min2, cat1)]
  {
    var once := Registered(cat, code, name1, qty1, min1, cat1);
    assert once[|cat|].code == code;
    var twice := Replenished(once, code, qty2, min2);
    assert |twice| == |cat| + 1;
    forall i | 0 <= i < |cat| ensures twice[i] == cat[i] {
      assert once[i] == cat[i];
    }
    assert twice == cat + [Item(code, name1, qty1 + qty2, min2, cat1)];
  }

  lemma RegisteredKeepsUnique(cat: seq<Item>, code: string, name: string, qty: int, minimum: int, category: string)
    requires Unique(cat)
    ensures Unique(Registered(cat, code, name, qty, minimum, category))
  {
  }

  lemma RegisteredKeepsNonNegative(cat: seq<Item>, code: string, name: string, qty: int, minimum: int, category: string)
    requires NonNegative(cat) && qty >= 0
    ensures NonNegative(Registered(cat, code, name, qty, minimum, category))
  {
  }

  /** Withdrawal of `qty` from the row at position `i`: only that row's balance changes. */
  function Debited(cat: seq<Item>, i: nat, qty: int): (r: seq<Item>)
    requires i < |cat|
    ensures |r| == |cat| && r[i].qty == cat[i].qty - qty
    ensures r[i].code == cat[i].code && r[i].material == cat[i].material
      && r[i].minimum == cat[i].minimum && r[i].category == cat[i].category
    ensures forall j :: 0 <= j < |cat| && j != i ==> r[j] == cat[j]
  {
    cat[i := cat[i].(qty := cat[i].qty - qty)]
  }

  /** A withdrawal within the balance keeps every balance non-negative and every code unique. */
  lemma DebitedKeepsInvariants(cat: seq<Item>, i: nat, qty: int)
    requires i < |cat| && qty <= cat[i].qty
    ensures NonNegative(cat) ==> NonNegative(Debited(cat, i, qty))
    ensures Unique(cat) ==> Unique(Debited(cat, i, qty))
  {
  }

  /** The management page's update: code, name, category and minimum overwritten, balance kept. */
  function Edited(cat: seq<Item>, i: nat, newCode: string, newName: string, newCategory: string, newMinimum: int): (r: seq<Item>)
    requires i < |cat|
    ensures |r| == |cat| && r[i].qty == cat[i].qty
    ensures r[i].code == newCode && r[i].material == newName
      && r[i].category == newCategory && r[i].minimum == newMinimum
    ensures forall j :: 0 <= j < |cat| && j != i ==> r[j] == cat[j]
  {
    cat[i := cat[i].(code := newCode, material := newName, category := newCategory, minimum := newMinimum)]
  }

  /** Renaming a row to a code no other row holds keeps the codes unique. */
  lemma EditedKeepsUnique(cat: seq<Item>, i: nat, newCode: string, newName: string, newCategory: string, newMinimum: int)
    requires i < |cat| && Unique(cat)
    requires forall j :: 0 <= j < |cat| && j != i ==> cat[j].code != newCode
    ensures Unique(Edited(cat, i, newCode, newName, newCategory, newMinimum))
  {
  }

  /** The edit does not check the new code: renaming onto another row's code duplicates it. */
  lemma EditedCanDuplicateCode()
    ensures var cat := [Item("A1", "LUVA", 3, 1, "EPI'S"), Item("B2", "MARTELO", 2, 1, "FERRAMENTAS")];
      Unique(cat) && !Unique(Edited(cat, 1, "A1", "MARTELO", "FERRAMENTAS", 1))
  {
    var cat := [Item("A1", "LUVA", 3, 1, "EPI'S"), Item("B2", "MARTELO", 2, 1, "FERRAMENTAS")];
    assert cat[0].code != cat[1].code by { assert cat[0].code[0] != cat[1].code[0]; }
    var e := Edited(cat, 1, "A1", "MARTELO", "FERRAMENTAS", 1);
    assert e[0].code == e[1].code;
  }

  /**
    The new code is stored as typed, without strip or upper-case: a code with
    a lower-case letter can never again be matched by what the entry and
    withdrawal pages look up.
   */
  lemma LowerCaseCodeUnreachable(code: string, k: nat, raw: string)
    requires k < |code| && IsAsciiLower(code[k])
    ensures Normalize(raw) != code
  {
  }

  /** Deletion: every row with the code goes, the others stay in their order. */
  function Remove(cat: seq<Item>, code: string): (r: seq<Item>)
    ensures |r| + Count(cat, code) == |cat|
    ensures !Contains(r, code)
  {
    if cat == [] then []
    else if cat[0].code == code then Remove(cat[1..], code)
    else [cat[0]] + Remove(cat[1..], code)
  }

  /** The number of rows holding `code`. */
  function Count(cat: seq<Item>, code: string): (n: nat)
    ensures n <= |cat|
    ensures n > 0 <==> Contains(cat, code)
  {
    if cat == [] then 0
    else
      assert forall i :: 1 <= i < |cat| ==> cat[i] == cat[1..][i - 1];
      (if cat[0].code == code then 1 else 0) + Count(cat[1..], code)
  }

  /** Deletion keeps the relative order of the surviving rows. */
  lemma {:induction false} RemoveConcat(a: seq<Item>, b: seq<Item>, code: string)
    ensures Remove(a + b, code) == Remove(a, code) + Remove(b, code)
  {
    if a == [] {
      assert a + b == b;
    } else {
      var ab := a + b;
      assert ab[0] == a[0] && ab[1..] == a[1..] + b;
      RemoveConcat(a[1..], b, code);
      if a[0].code == code {
        assert Remove(ab, code) == Remove(a[1..] + b, code);
        assert Remove(a, code) == Remove(a[1..], code);
      } else {
        assert Remove(ab, code) == [a[0]] + Remove(a[1..] + b, code);
        assert Remove(a, code) == [a[0]] + Remove(a[1..], code);
      }
    }
  }

  /** Every row that survives the deletion was in the table. */
  lemma {:induction false} RemoveKeepsNothingNew(cat: seq<Item>, code: string, k: nat)
    requires k < |Remove(cat, code)|
    ensures Remove(cat, code)[k] in cat
  {
    var tail := cat[1..];
    var t := Remove(tail, code);
    if cat[0].code == code {
      RemoveKeepsNothingNew(tail, code, k);
    } else if k > 0 {
      assert Remove(cat, code)[k] == t[k - 1];
      RemoveKeepsNothingNew(tail, code, k - 1);
    }
    assert forall it :: it in tail ==> it in cat;
  }

  /** Every row with another code survives the deletion. */
  lemma {:induction false} RemoveKeepsOthers(cat: seq<Item>, code: string, i: nat)
    requires i < |cat| && cat[i].code != code
    ensures cat[i] in Remove(cat, code)
  {
    if i > 0 {
      assert cat[1..][i - 1] == cat[i];
      RemoveKeepsOthers(cat[1..], code, i - 1);
    }
  }

  /** Deleting a code that no row holds changes nothing. */
  lemma {:induction false} RemoveAbsent(cat: seq<Item>, code: string)
    requires !Contains(cat, code)
    ensures Remove(cat, code) == cat
  {
    if cat != [] {
      assert !Contains(cat[1..], code) by {
        forall i | 0 <= i < |cat[1..]| ensures cat[1..][i].code != code {
          assert cat[1..][i] == cat[i + 1];
        }
      }
      RemoveAbsent(cat[1..], code);
    }
  }

  lemma RemoveKeepsNonNegative(cat: seq<Item>, code: string)
    requires NonNegative(cat)
    ensures NonNegative(Remove(cat, code))
  {
    var r := Remove(cat, code);
    forall i | 0 <= i < |r| ensures r[i].qty >= 0 {
      RemoveKeepsNothingNew(cat, code, i);
    }
  }

  lemma {:induction false} RemoveKeepsUnique(cat: seq<Item>, code: string)
    requires Unique(cat)
    ensures Unique(Remove(cat, code))
  {
    if cat != [] {
      var tail := cat[1..];
      assert Unique(tail) by {
        forall i, j | 0 <= i < j < |tail| ensures tail[i].code != tail[j].code {
          assert tail[i] == cat[i + 1] && tail[j] == cat[j + 1];
        }
      }
      RemoveKeepsUnique(tail, code);
      if cat[0].code != code {
        var t := Remove(tail, code);
        forall k | 0 <= k < |t| ensures t[k].code != cat[0].code {
          RemoveKeepsNothingNew(tail, code, k);
          var m :| 0 <= m < |tail| && tail[m] == t[k];
          assert cat[m + 1] == t[k];
        }
        UniqueCons(cat[0], t);
      }
    }
  }

  lemma UniqueCons(x: Item, t: seq<Item>)
    requires Unique(t)
    requires forall k :: 0 <= k < |t| ==> t[k].code != x.code
    ensures Unique([x] + t)
  {
    var r := [x] + t;
    forall i, j | 0 <= i < j < |r| ensures r[i].code != r[j].code {
      assert r[j] == t[j - 1];
      if i > 0 {
        assert r[i] == t[i - 1];
      }
    }
  }

  /** The sum of all balances. */
  function Total(cat: seq<Item>): int {
    if cat == [] then 0 else cat[0].qty + Total(cat[1..])
  }

  /** Replacing one row changes the sum by the difference of the two balances. */
  lemma {:induction false} TotalUpdate(cat: seq<Item>, i: nat, it: Item)
    requires i < |cat|
    ensures Total(cat[i := it]) == Total(cat) - cat[i].qty + it.qty
  {
    if i > 0 {
      assert cat[i := it][1..] == cat[1..][i - 1 := it];
      TotalUpdate(cat[1..], i - 1, it);
    }
  }

  lemma {:induction false} TotalAppend(cat: seq<Item>, it: Item)
    ensures Total(cat + [it]) == Total(cat) + it.qty
  {
    if cat != [] {
      assert (cat + [it])[1..] == cat[1..] + [it];
      TotalAppend(cat[1..], it);
    }
  }

  /** Replenishment adds `qty` once for every row that holds the code. */
  lemma {:induction false} TotalReplenished(cat: seq<Item>, code: string, qty: int, minimum: int)
    ensures Total(Replenished(cat, code, qty, minimum)) == Total(cat) + qty * Count(cat, code)
  {
    if cat != [] {
      var r := Replenished(cat, code, qty, minimum);
      var c := Count(cat[1..], code);
      assert r[1..] == Replenished(cat[1..], code, qty, minimum);
      TotalReplenished(cat[1..], code, qty, minimum);
      if cat[0].code == code {
        assert Count(cat, code) == 1 + c;
        MulSucc(qty, c);
      } else {
        assert Count(cat, code) == c;
      }
    }
  }

  lemma MulSucc(a: int, b: int)
    ensures a * (1 + b) == a + a * b
  {
  }

  /** With unique codes a code is held by at most one row. */
  lemma {:induction false} CountUnique(cat: seq<Item>, code: string)
    requires Unique(cat)
    ensures Count(cat, code) == if Contains(cat, code) then 1 else 0
  {
    if cat != [] {
      assert Unique(cat[1..]) by {
        forall i, j | 0 <= i < j < |cat[1..]| ensures cat[1..][i].code != cat[1..][j].code {
          assert cat[1..][i] == cat[i + 1] && cat[1..][j] == cat[j + 1];
        }
      }
      CountUnique(cat[1..], code);
      if cat[0].code == code {
        assert !Contains(cat[1..], code) by {
          forall i | 0 <= i < |cat[1..]| ensures cat[1..][i].code != code {
            assert cat[1..][i] == cat[i + 1];
          }
        }
      } else {
        assert Contains(cat, code) <==> Contains(cat[1..], code) by {
          if Contains(cat, code) {
            var i :| 0 <= i < |cat| && cat[i].code == code;
            assert cat[1..][i - 1] == cat[i];
          }
          if Contains(cat[1..], code) {
            var i :| 0 <= i < |cat[1..]| && cat[1..][i].code == code;
            assert cat[i + 1] == cat[1..][i];
          }
        }
      }
    }
  }

  /** With unique codes a saved entry raises the total stock by exactly the quantity saved. */
  lemma TotalRegistered(cat: seq<Item>, code: string, name: string, qty: int, minimum: int, category: string)
    requires Unique(cat)
    ensures Total(Registered(cat, code, name, qty, minimum, category)) == Total(cat) + qty
  {
    if Contains(cat, code) {
      TotalReplenished(cat, code, qty, minimum);
      CountUnique(cat, code);
    } else {
      TotalAppend(cat, Item(code, name, qty, minimum, category));
    }
  }

  /** A withdrawal lowers the total stock by exactly the quantity withdrawn; an edit leaves it. */
  lemma TotalDebitedEdited(cat: seq<Item>, i: nat, qty: int, newCode: string, newName: string, newCategory: string, newMinimum: int)
    requires i < |cat|
    ensures Total(Debited(cat, i, qty)) == Total(cat) - qty
    ensures Total(Edited(cat, i, newCode, newName, newCategory, newMinimum)) == Total(cat)
  {
    TotalUpdate(cat, i, cat[i].(qty := cat[i].qty - qty));
    TotalUpdate(cat, i, cat[i].(code := newCode, material := newName, category := newCategory, minimum := newMinimum));
  }

  /** The overview's red rows: stock at or below the minimum, the minimum itself included. */
  function IsCritical(it: Item): (critical: bool)
    ensures it.qty < it.minimum ==> critical
    ensures it.qty == it.minimum ==> critical
    ensures it.qty > it.minimum ==> !critical
  {
    it.qty <= it.minimum
  }

  /** The style the overview gives each of a row's `columns` cells. */
  function Highlight(it: Item, columns: nat): (styles: seq<string>)
    ensures |styles| == columns
    ensures forall k :: 0 <= k < columns ==> (styles[k] == "color: red" <==> it.qty <= it.minimum)
    ensures forall k :: 0 <= k < columns ==> (styles[k] == "color: white" <==> it.qty > it.minimum)
  {
    var color := if IsCritical(it) then "red" else "white";
    seq(columns, _ => "color: " + color)
  }

  /** A withdrawal never clears a red row; the only row that can turn red is the one withdrawn from. */
  lemma DebitedKeepsCritical(cat: seq<Item>, i: nat, qty: int, j: nat)
    requires i < |cat| && j < |cat| && qty >= 0
    ensures IsCritical(cat[j]) ==> IsCritical(Debited(cat, i, qty)[j])
    ensures j != i ==> Debited(cat, i, qty)[j] == cat[j]
  {
  }

  /**
    The code the management page takes for the row at `choice`: the row's
    `"code - material"` option, split at its first separator.
   */
  function LabelledCode(cat: seq<Item>, choice: nat): (code: string)
    requires choice < |cat|
    ensures code <= cat[choice].code
  {
    var sel := Label(cat[choice].code, cat[choice].material);
    var r := BeforeSeparator(sel);
    assert SeparatorAt(sel, |cat[choice].code|);
    assert |r| <= |cat[choice].code|;
    assert r == sel[..|r|];
    assert sel[..|r|] == cat[choice].code[..|r|];
    r
  }

  /** With codes free of the separator and of a trailing " -", the split finds the chosen row. */
  lemma LabelledCodeFinds(cat: seq<Item>, choice: nat)
    requires choice < |cat| && Unique(cat)
    requires forall j: nat :: !SeparatorAt(cat[choice].code, j)
    requires !(|cat[choice].code| >= 2 && cat[choice].code[|cat[choice].code| - 2..] == " -")
    ensures FirstIndex(cat, LabelledCode(cat, choice)) == Some(choice)
  {
    LabelRoundTrip(cat[choice].code, cat[choice].material);
    FirstIndexOfUnique(cat, choice);
  }

  /** A row coded "A -" is offered as "A - - LUVA", which splits to "A": a code no row holds. */
  lemma LabelledCodeMisses()
    ensures var cat := [Item("A -", "LUVA", 3, 1, "EPI'S")];
      !Contains(cat, LabelledCode(cat, 0))
  {
    LabelSplitTruncatesTrailingDash();
    var cat := [Item("A -", "LUVA", 3, 1, "EPI'S")];
    assert cat[0].code != "A" by { assert |cat[0].code| == 3; }
  }

  /**
    A row whose code holds the separator is offered as "A - B - MARTELO",
    which splits to "A": the code of another row, which the page then edits
    or deletes instead.
   */
  lemma LabelledCodeSelectsOther()
    ensures var cat := [Item("A", "LUVA", 3, 1, "EPI'S"), Item("A - B", "MARTELO", 2, 1, "FERRAMENTAS")];
      Unique(cat) && LabelledCode(cat, 1) == "A" && FirstIndex(cat, LabelledCode(cat, 1)) == Some(0)
  {
    var cat := [Item("A", "LUVA", 3, 1, "EPI'S"), Item("A - B", "MARTELO", 2, 1, "FERRAMENTAS")];
    assert cat[0].code != cat[1].code by { assert |cat[0].code| == 1; }
    var sel := Label("A - B", "MARTELO");
    assert sel[1..4] == Separator;
    assert !SeparatorAt(sel, 0) by { assert sel[0] == 'A'; }
    assert FindSeparator(sel, 1) == Some(1);
    assert BeforeSeparator(sel) == sel[..1];
    assert sel[..1] == "A";
  }

  /**
    The code of the row chosen in the management selectbox, taken from the row
    itself rather than parsed back out of its label: it is always held by the
    table, and with unique codes it selects exactly the chosen row.
   */
  function SelectedCode(cat: seq<Item>, choice: nat): (code: string)
    requires choice < |cat|
    ensures Contains(cat, code)
    ensures Unique(cat) ==> FirstIndex(cat, code) == Some(choice)
  {
    cat[choice].code
  }
}
