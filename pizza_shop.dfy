/** `PizzaShop` and its branches: an order is a list of pizza names taken from the shared
    menu; its total is the sum of the menu prices times the branch's tariff. */
module PizzaShops {
  import opened Wrappers

  /** The menu shared by every shop, with the price of each pizza. */
  const Menu: map<string, int> := map["pepperoni" := 150, "margherita" := 120, "vegetable" := 95]

  const TehranTariff: real := 1.10
  const ShirazTariff: real := 0.95

  predicate OnMenu(order: seq<string>)
  {
    forall i :: 0 <= i < |order| ==> order[i] in Menu
  }

  /** The base price of an order: the sum of the menu prices of its pizzas, 0 when empty. */
  function BasePrice(order: seq<string>): (price: int)
    requires OnMenu(order)
    ensures price >= 0
  {
    if order == [] then 0 else BasePrice(order[..|order| - 1]) + Menu[order[|order| - 1]]
  }

  /** The base price of two orders together is the sum of their base prices. */
  lemma {:induction false} BasePriceAppend(a: seq<string>, b: seq<string>)
    requires OnMenu(a) && OnMenu(b)
    ensures OnMenu(a + b) && BasePrice(a + b) == BasePrice(a) + BasePrice(b)
    decreases |b|
  {
    assert OnMenu(a + b) by {
      forall i | 0 <= i < |a + b| ensures (a + b)[i] in Menu {
        if i >= |a| {
          assert (a + b)[i] == b[i - |a|];
        }
      }
    }
    if b == [] {
      assert a + b == a;
    } else {
      var b' := b[..|b| - 1];
      assert (a + b)[..|a + b| - 1] == a + b';
      assert OnMenu(b');
      BasePriceAppend(a, b');
    }
  }

  /** Every pizza costs between 95 (vegetable) and 150 (pepperoni). */
  lemma {:induction false} BasePriceBounds(order: seq<string>)
    requires OnMenu(order)
    ensures 95 * |order| <= BasePrice(order) <= 150 * |order|
  {
    if order != [] {
      var p := order[..|order| - 1];
      assert OnMenu(p);
      BasePriceBounds(p);
      assert order[|order| - 1] in Menu;
    }
  }

  class PizzaShop {
    var name: string
    /** The branch's multiplier; the base class defines none, so totalling an order at a
        plain `PizzaShop` fails as the missing attribute does. */
    var tariff: Option<real>
    var currentOrder: seq<string>

    /** The order only ever holds pizzas from the menu. */
    ghost predicate Valid()
      reads this
    {
      OnMenu(currentOrder)
    }

    constructor (name: string)
      ensures Valid()
      ensures this.name == name && tariff == None && currentOrder == []
    {
      this.name := name;
      tariff := None;
      currentOrder := [];
    }

    /** `TehranBranch()`: 10% above the menu prices. */
    constructor Tehran()
      ensures Valid()
      ensures name == "Tehran Branch" && tariff == Some(TehranTariff) && currentOrder == []
    {
      name := "Tehran Branch";
      tariff := Some(TehranTariff);
      currentOrder := [];
    }

    /** `ShirazBranch()`: 5% below the menu prices. */
    constructor Shiraz()
      ensures Valid()
      ensures name == "Shiraz Branch" && tariff == Some(ShirazTariff) && currentOrder == []
    {
      name := "Shiraz Branch";
      tariff := Some(ShirazTariff);
      currentOrder := [];
    }

    /** `add_to_order`: a pizza on the menu joins the end of the order (duplicates kept);
        any other name leaves the order as it was. */
    method AddToOrder(pizza: string) returns (added: bool)
      requires Valid()
      modifies this
      ensures Valid()
      ensures added <==> pizza in Menu
      ensures currentOrder == if added then old(currentOrder) + [pizza] else old(currentOrder)
      ensures name == old(name) && tariff == old(tariff)
    {
      added := pizza in Menu;
      if added {
        currentOrder := currentOrder + [pizza];
      }
    }

    /** `calculate_total`: the base price times the tariff, after which the order is
        empty for the next customer; without a tariff, an error and the order untouched. */
    method CalculateTotal() returns (total: Result<real, string>)
      requires Valid()
      modifies this
      ensures Valid()
      ensures old(tariff).None? ==> total.Err? && currentOrder == old(currentOrder)
      ensures old(tariff).Some? ==>
                total == Ok((BasePrice(old(currentOrder)) as real) * old(tariff).value)
                && currentOrder == []
      ensures name == old(name) && tariff == old(tariff)
    {
      if tariff.None? {
        return Err("'PizzaShop' object has no attribute 'tariff'");
      }
      var basePrice := BasePrice(currentOrder);
      var finalPrice := (basePrice as real) * tariff.value;
      total := Ok(finalPrice);
      assert basePrice == BasePrice(old(currentOrder));
      assert finalPrice == (BasePrice(old(currentOrder)) as real) * old(tariff).value;
      currentOrder := [];
    }
  }

  /** The demonstration: pepperoni and margherita in Tehran, pepperoni and vegetable in
      Shiraz. */
  method Demonstration() returns (tehranTotal: Result<real, string>, shirazTotal: Result<real, string>)
    ensures tehranTotal == Ok(297.0) && shirazTotal == Ok(232.75)
  {
    var tehran := new PizzaShop.Tehran();
    var shiraz := new PizzaShop.Shiraz();
    var _ := tehran.AddToOrder("pepperoni");
    var _ := tehran.AddToOrder("margherita");
    assert tehran.currentOrder == ["pepperoni", "margherita"];
    assert BasePrice(["pepperoni", "margherita"]) == 270 by {
      assert ["pepperoni", "margherita"][..1] == ["pepperoni"];
    }
    tehranTotal := tehran.CalculateTotal();
    var _ := shiraz.AddToOrder("pepperoni");
    var _ := shiraz.AddToOrder("vegetable");
    assert shiraz.currentOrder == ["pepperoni", "vegetable"];
    assert BasePrice(["pepperoni", "vegetable"]) == 245 by {
      assert ["pepperoni", "vegetable"][..1] == ["pepperoni"];
    }
    shirazTotal := shiraz.CalculateTotal();
  }
}
