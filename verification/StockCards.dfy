/** Stock updates change product and variant rows and rebuild no card: when the cards and cached columns survive one. */
module StockCards {
  import opened Outcomes
  import opened Aggregates
  import opened Cards
  import opened Products
  import S = Stock

  function WithProductQty(products: map<ProductId, Product>, p: ProductId, qty: int): map<ProductId, Product>
    requires p in products
  {
    products[p := products[p].(qty := qty)]
  }

  function WithVariantQty(variants: map<int, Variant>, v: int, qty: int): map<int, Variant>
    requires v in variants
  {
    variants[v := variants[v].(qty := qty)]
  }

  function QtyAt(t: Tables, row: S.Row): Option<int> {
    match row
    case ProductRow(p) => if p in t.products then Some(t.products[p].qty) else None
    case VariantRow(v) => if v in t.variants then Some(t.variants[v].qty) else None
  }

  /** The stock table as the stock protocol sees it. */
  function QuantitiesOf(t: Tables): S.Quantities {
    var rows := (set p | p in t.products :: S.ProductRow(p)) + (set v | v in t.variants :: S.VariantRow(v));
    map row | row in rows && QtyAt(t, row).Some? :: QtyAt(t, row).value
  }

  /** The row's quantity after a call; none when there is no row or a decrement does not find enough. */
  function NewQty(t: Tables, call: S.Call): Option<int> {
    var qty := QtyAt(t, call.row);
    if qty.None? || (call.Decrement? && qty.value < call.qty) then None
    else Some(qty.value + S.Delta(call, call.row))
  }

  /** One stock call on the product and variant tables. */
  function WithStock(t: Tables, call: S.Call): Tables {
    var qty := NewQty(t, call);
    match call.row
    case ProductRow(p) =>
      if qty.None? then t else t.(products := WithProductQty(t.products, p, qty.value))
    case VariantRow(v) =>
      if qty.None? then t else t.(variants := WithVariantQty(t.variants, v, qty.value))
  }

  lemma HoldsRow(t: Tables, row: S.Row)
    ensures row in QuantitiesOf(t) <==> QtyAt(t, row).Some?
    ensures QtyAt(t, row).Some? ==> QuantitiesOf(t)[row] == QtyAt(t, row).value
  {
  }

  lemma QtyAfter(t: Tables, call: S.Call, row: S.Row)
    ensures QtyAt(WithStock(t, call), row) ==
            if row == call.row && NewQty(t, call).Some? then NewQty(t, call) else QtyAt(t, row)
  {
  }

  /** It is the update the stock protocol is about. */
  lemma WithStockIsTheUpdate(t: Tables, call: S.Call)
    ensures QuantitiesOf(WithStock(t, call)) == S.Execute(QuantitiesOf(t), call)
  {
    var before, after := QuantitiesOf(t), QuantitiesOf(WithStock(t, call));
    HoldsRow(t, call.row);
    forall row
      ensures row in after <==> row in before
      ensures row in before ==> after[row] == S.Execute(before, call)[row]
    {
      QtyAfter(t, call, row);
      HoldsRow(t, row);
      HoldsRow(WithStock(t, call), row);
    }
  }

  /**
   A call takes from, or returns to, the variant when one is named and else the product; nothing but
   that quantity changes, and nothing at all if a decrement does not find enough.
   */
  lemma StockCallChanges(t: Tables, p: ProductId, variantId: Option<int>, n: int, takes: bool)
    ensures var call := if takes then S.Decrement(S.RowOf(p, variantId), n) else S.Increment(S.RowOf(p, variantId), n);
            var u := WithStock(t, call);
            match variantId
            case Some(v) =>
              if v !in t.variants || (takes && t.variants[v].qty < n) then u == t
              else
                u == t.(variants := t.variants[v := t.variants[v].(
                                                    qty := t.variants[v].qty + if takes then -n else n)])
            case None =>
              if p !in t.products || (takes && t.products[p].qty < n) then u == t
              else
                u == t.(products := t.products[p := t.products[p].(
                                                    qty := t.products[p].qty + if takes then -n else n)])
  {
  }

  // ---------------------------------------------------------------- a product's own quantity

  /** A simple product's cards show only whether there is stock, and its variants not at all. */
  lemma SimpleProductCards(cat: Catalog, p: ProductId, a: Product, b: Product, rows: ProductRows, other: ProductRows)
    requires !a.hasVariants && b == a.(qty := b.qty) && other == rows.(active := other.active)
    requires a.qty > 0 <==> b.qty > 0
    ensures Derived(cat, p, Some(a), rows) == Derived(cat, p, Some(b), other)
  {
    forall l | l in rows.translations ensures View(cat, p, a, rows, l) == View(cat, p, b, other, l) {}
  }

  lemma StockShows(cat: Catalog, p: ProductId, a: Product, b: Product, rows: ProductRows, l: Lang)
    requires !a.hasVariants && a.isActive && b == a.(qty := b.qty) && l in rows.translations
    requires Derived(cat, p, Some(a), rows) == Derived(cat, p, Some(b), rows)
    ensures a.qty > 0 <==> b.qty > 0
  {
    assert Derived(cat, p, Some(a), rows)[l] == View(cat, p, a, rows, l);
    assert Derived(cat, p, Some(b), rows)[l] == View(cat, p, b, rows, l);
  }

  /** A variable product's cards never show the quantity cached on the product. */
  lemma VariableProductCards(cat: Catalog, p: ProductId, a: Product, b: Product, rows: ProductRows)
    requires a.hasVariants && b == a.(qty := b.qty)
    ensures Derived(cat, p, Some(a), rows) == Derived(cat, p, Some(b), rows)
  {
    forall l | l in rows.translations ensures View(cat, p, a, rows, l) == View(cat, p, b, rows, l) {}
  }

  lemma ProductSliceIff(cat: Catalog, p: ProductId, s: Slice, qty: int)
    requires HealthySlice(cat, p, s) && s.product.Some?
    ensures var a := s.product.value;
            HealthySlice(cat, p, s.(product := Some(a.(qty := qty)))) <==>
              !a.isActive || qty == a.qty || (!a.hasVariants && (a.qty > 0 <==> qty > 0))
  {
    var a := s.product.value;
    var b := a.(qty := qty);
    if a.hasVariants {
      VariableProductCards(cat, p, a, b, s.rows);
    } else if a.qty > 0 <==> qty > 0 {
      SimpleProductCards(cat, p, a, b, s.rows, s.rows);
    } else if a.isActive && Derived(cat, p, Some(a), s.rows) == Derived(cat, p, Some(b), s.rows) {
      assert Ru in s.rows.translations;
      StockShows(cat, p, a, b, s.rows, Ru);
    }
  }

  lemma ProductStockIff(t: Tables, cat: Catalog, p: ProductId, qty: int)
    requires AllHealthy(t, cat) && p in t.products
    ensures var a := t.products[p];
            AllHealthy(t.(products := WithProductQty(t.products, p, qty)), cat) <==>
              !a.isActive || qty == a.qty || (!a.hasVariants && (a.qty > 0 <==> qty > 0))
  {
    var t' := t.(products := WithProductQty(t.products, p, qty));
    assert Healthy(t, cat, p);
    ProductSliceIff(cat, p, SliceOf(t, p), qty);
    assert SliceOf(t', p) == SliceOf(t, p).(product := Some(t.products[p].(qty := qty)));
    forall q | q != p ensures Healthy(t', cat, q) {
      assert Healthy(t, cat, q);
      assert SliceOf(t', q) == SliceOf(t, q);
    }
    assert Healthy(t', cat, p) <==> HealthySlice(cat, p, SliceOf(t', p));
  }

  // ---------------------------------------------------------------- a variant's quantity

  lemma ActiveAfter(variants: map<int, Variant>, v: int, qty: int, q: ProductId)
    requires v in variants
    ensures var active := ActiveVariantsOf(variants, q);
            ActiveVariantsOf(WithVariantQty(variants, v, qty), q) ==
            if v in active then WithVariantQty(active, v, qty) else active
  {
  }

  /** The summed stock moves by exactly the difference. */
  lemma TotalMoves(active: map<int, Variant>, v: int, qty: int)
    requires v in active
    ensures AggregateOf(WithVariantQty(active, v, qty)).totalQty == AggregateOf(active).totalQty + qty - active[v].qty
  {
    var after := WithVariantQty(active, v, qty);
    var before_, after_ := map w | w in active :: active[w].qty, map w | w in after :: after[w].qty;
    assert active[v].price in Prices(active) && after[v].price in Prices(after);
    SumSplitsOff(before_, v);
    SumSplitsOff(after_, v);
    assert before_ - {v} == after_ - {v};
  }

  lemma VariantSliceIff(cat: Catalog, p: ProductId, s: Slice, v: int, qty: int)
    requires HealthySlice(cat, p, s) && v in s.rows.active && qty != s.rows.active[v].qty
    ensures var rows := s.rows.(active := WithVariantQty(s.rows.active, v, qty));
            HealthySlice(cat, p, s.(rows := rows)) <==>
              s.product.None? || !s.product.value.isActive || !s.product.value.hasVariants
  {
    TotalMoves(s.rows.active, v, qty);
    var rows := s.rows.(active := WithVariantQty(s.rows.active, v, qty));
    if s.product.Some? && !s.product.value.hasVariants {
      SimpleProductCards(cat, p, s.product.value, s.product.value, s.rows, rows);
    }
  }

  lemma SliceAfterVariant(t: Tables, v: int, qty: int, q: ProductId)
    requires v in t.variants
    ensures var t', active := t.(variants := WithVariantQty(t.variants, v, qty)), ActiveVariantsOf(t.variants, q);
            SliceOf(t', q) ==
            if v in active then SliceOf(t, q).(rows := RowsOf(t, q).(active := WithVariantQty(active, v, qty)))
            else SliceOf(t, q)
  {
    ActiveAfter(t.variants, v, qty, q);
  }

  lemma OtherProductStaysHealthy(t: Tables, cat: Catalog, v: int, qty: int, q: ProductId)
    requires AllHealthy(t, cat) && v in t.variants && (q != t.variants[v].productId || !t.variants[v].isActive)
    ensures Healthy(t.(variants := WithVariantQty(t.variants, v, qty)), cat, q)
  {
    assert Healthy(t, cat, q);
    SliceAfterVariant(t, v, qty, q);
  }

  lemma OwnProductIff(t: Tables, cat: Catalog, v: int, qty: int)
    requires AllHealthy(t, cat) && v in t.variants && t.variants[v].isActive && qty != t.variants[v].qty
    ensures var p := t.variants[v].productId;
            Healthy(t.(variants := WithVariantQty(t.variants, v, qty)), cat, p) <==>
              p !in t.products || !t.products[p].isActive || !t.products[p].hasVariants
  {
    var p := t.variants[v].productId;
    assert Healthy(t, cat, p);
    SliceAfterVariant(t, v, qty, p);
    VariantSliceIff(cat, p, SliceOf(t, p), v, qty);
  }

  lemma VariantStockIff(t: Tables, cat: Catalog, v: int, qty: int)
    requires AllHealthy(t, cat) && v in t.variants
    ensures var variant := t.variants[v];
            AllHealthy(t.(variants := WithVariantQty(t.variants, v, qty)), cat) <==>
              || qty == variant.qty || !variant.isActive || variant.productId !in t.products
              || !t.products[variant.productId].isActive || !t.products[variant.productId].hasVariants
  {
    var t', p := t.(variants := WithVariantQty(t.variants, v, qty)), t.variants[v].productId;
    forall q | q != p || !t.variants[v].isActive ensures Healthy(t', cat, q) {
      OtherProductStaysHealthy(t, cat, v, qty, q);
    }
    if qty == t.variants[v].qty {
      assert t.variants[v := t.variants[v]] == t.variants;
    } else if t.variants[v].isActive {
      OwnProductIff(t, cat, v, qty);
      assert AllHealthy(t', cat) <==> Healthy(t', cat, p);
    }
  }

  // ---------------------------------------------------------------- any call

  /**
   The call leaves something behind: it changes the quantity cached on an active variable
   product, or one of the quantities that is summed up into it, or takes an active simple
   product into or out of stock.
   */
  predicate LeavesStale(t: Tables, call: S.Call) {
    && NewQty(t, call).Some? && NewQty(t, call) != QtyAt(t, call.row)
    && match call.row
       case ProductRow(p) =>
         var product := t.products[p];
         product.isActive && (product.hasVariants || (product.qty > 0) != (NewQty(t, call).value > 0))
       case VariantRow(v) =>
         var variant := t.variants[v];
         && variant.isActive && variant.productId in t.products
         && t.products[variant.productId].isActive && t.products[variant.productId].hasVariants
  }

  /** From healthy tables, everything is still healthy after one stock call if and only if it leaves nothing stale. */
  lemma StockKeepsHealthIff(t: Tables, cat: Catalog, call: S.Call)
    requires AllHealthy(t, cat)
    ensures AllHealthy(WithStock(t, call), cat) <==> !LeavesStale(t, call)
  {
    if NewQty(t, call).Some? {
      match call.row
      case ProductRow(p) => ProductStockIff(t, cat, p, NewQty(t, call).value);
      case VariantRow(v) => VariantStockIff(t, cat, v, NewQty(t, call).value);
    }
  }
}
