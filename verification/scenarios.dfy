/** The products table of the repository's tests and the outcomes the tests
    expect, derived from the model. */
module Scenarios {
  import opened Wrappers
  import opened Tables
  import opened Expressions
  import opened Filtering
  import opened Aggregation
  import Numbers
  import Seqs
  import Layout
  import Strings

  /** One record of the products file. */
  function Record(product: string, price: string, stock: string): Row {
    map["product" := product, "price" := price, "stock" := stock]
  }

  lemma RecordFields(product: string, price: string, stock: string)
    ensures Record(product, price, stock).Keys == {"product", "price", "stock"}
    ensures Record(product, price, stock)["product"] == product
    ensures Record(product, price, stock)["price"] == price
    ensures Record(product, price, stock)["stock"] == stock
  {
  }

  const Apple: Row := Record("Apple", "100", "50")
  const Banana: Row := Record("Banana", "50", "100")
  const Orange: Row := Record("Orange", "75", "75")
  const Milk: Row := Record("Milk", "120", "30")

  const Products: Table := [Apple, Banana, Orange, Milk]

  /** The products priced above 70. */
  const Above70: Table := [Apple, Orange, Milk]

  lemma ProductsFields()
    ensures Uniform(Products)
    ensures forall i :: 0 <= i < |Products| ==> Products[i].Keys == {"product", "price", "stock"}
    ensures Apple["product"] == "Apple" && Apple["price"] == "100" && Apple["stock"] == "50"
    ensures Banana["product"] == "Banana" && Banana["price"] == "50" && Banana["stock"] == "100"
    ensures Orange["product"] == "Orange" && Orange["price"] == "75" && Orange["stock"] == "75"
    ensures Milk["product"] == "Milk" && Milk["price"] == "120" && Milk["stock"] == "30"
  {
    RecordFields("Apple", "100", "50");
    RecordFields("Banana", "50", "100");
    RecordFields("Orange", "75", "75");
    RecordFields("Milk", "120", "30");
  }

  /** A cell spelling a natural number in decimal reads as that number. */
  lemma NumberCell(row: Row, column: string, n: nat)
    requires column in row && row[column] == Numbers.NatToString(n)
    ensures Numbers.ParseNum(row[column]) == Some(n as real)
  {
    Numbers.ParseNumOfNat(n);
  }

  /** A cell starting with a capital letter, such as a product name, is not a number. */
  lemma TextCell(text: string)
    requires |text| > 0 && 'A' <= text[0] <= 'Z'
    ensures Numbers.ParseNum(text) == None
  {
    if Numbers.ParseNum(text).Some? {
      Numbers.ParseNumOnlyNumerals(text);
    }
  }

  /** What `Filter` keeps of a single element. */
  function Keep<T>(x: T, p: T -> bool): seq<T>
  {
    if p(x) then [x] else []
  }

  lemma FilterOfFour<T>(a: T, b: T, c: T, d: T, p: T -> bool)
    ensures Seqs.Filter([a, b, c, d], p) == Keep(a, p) + (Keep(b, p) + (Keep(c, p) + Keep(d, p)))
  {
    var s4, s3, s2, s1 := [a, b, c, d], [b, c, d], [c, d], [d];
    assert s4[1..] == s3 && s3[1..] == s2 && s2[1..] == s1 && s1[1..] == [];
    assert Seqs.Filter(s1, p) == Keep(d, p);
    assert Seqs.Filter(s2, p) == Keep(c, p) + Keep(d, p);
    assert Seqs.Filter(s3, p) == Keep(b, p) + (Keep(c, p) + Keep(d, p));
  }

  /** The `--where` and `--aggregate` texts the tests pass. */
  const PriceAbove100: string := "price>100"
  const PriceNoOperator: string := "price_100"
  const PriceAbove70Text: string := "price>70"
  const InvalidAbove100: string := "invalid>100"
  const AvgPriceText: string := "avg(price)"
  const AvgPriceUnclosed: string := "avg(price"
  const AvgStockText: string := "avg(stock)"
  const SumPriceText: string := "sum(price)"

  /** Text spelling `column`, an operator and `operand` parses into those parts. */
  lemma ParsesAsCondition(text: string, column: string, op: Op, operand: string)
    requires !HasOpChar(column)
    requires text == column + [OpChar(op)] + operand
    ensures ParseFilter(text) == Success(Condition(column, op, operand))
  {
    ParseFilterInverse(Condition(column, op, operand));
  }

  /** Text spelling `func(column)` parses into the function name and the column. */
  lemma ParsesAsCall(text: string, func: string, column: string)
    requires '(' !in func
    requires text == func + "(" + column + ")"
    ensures ParseAgg(text) == Success(AggCall(func, column))
  {
    ParseAggInverse(AggCall(func, column));
  }

  /** The column names of the products file hold no operator character. */
  lemma ColumnNamesPlain()
    ensures !HasOpChar("price") && !HasOpChar("invalid")
  {
    var s, t := "price", "invalid";
    forall i | 0 <= i < |s| ensures !IsOpChar(s[i]) {
      assert i < 5;
    }
    forall i | 0 <= i < |t| ensures !IsOpChar(t[i]) {
      assert i < 7;
    }
  }

  lemma ParseFilterExample()
    ensures ParseFilter(PriceAbove100) == Success(Condition("price", Gt, "100"))
  {
    ColumnNamesPlain();
    ParsesAsCondition(PriceAbove100, "price", Gt, "100");
  }

  lemma ParseFilterRejectsNoOperator()
    ensures ParseFilter(PriceNoOperator) == Failure(InvalidExpression("price_100"))
  {
    var s := PriceNoOperator;
    assert s == ['p', 'r', 'i', 'c', 'e', '_', '1', '0', '0'];
    assert !HasOpChar(s) by {
      forall i | 0 <= i < |s| ensures !IsOpChar(s[i]) {
        assert i < 9;
      }
    }
  }

  lemma ParseAggExample()
    ensures ParseAgg(AvgPriceText) == Success(AggCall("avg", "price"))
  {
    ParsesAsCall(AvgPriceText, "avg", "price");
  }

  lemma ParseAggRejectsMissingParen()
    ensures ParseAgg(AvgPriceUnclosed) == Failure(InvalidExpression("avg(price"))
  {
    var s := AvgPriceUnclosed;
    assert s[|s| - 1] == 'e';
  }

  lemma Spellings()
    ensures Numbers.NatToString(30) == "30"
    ensures Numbers.NatToString(50) == "50"
    ensures Numbers.NatToString(70) == "70"
    ensures Numbers.NatToString(75) == "75"
    ensures Numbers.NatToString(100) == "100"
    ensures Numbers.NatToString(120) == "120"
  {
  }

  lemma PriceAbove70(row: Row, v: real)
    requires "price" in row && Numbers.ParseNum(row["price"]) == Some(v)
    ensures Matcher("price", Gt, Numeric(70.0))(row) <==> v > 70.0
  {
  }

  lemma PriceDecisions()
    ensures var keep := Matcher("price", Gt, Numeric(70.0));
            keep(Apple) && !keep(Banana) && keep(Orange) && keep(Milk)
  {
    ProductsFields();
    Spellings();
    NumberCell(Apple, "price", 100);
    NumberCell(Banana, "price", 50);
    NumberCell(Orange, "price", 75);
    NumberCell(Milk, "price", 120);
    PriceAbove70(Apple, 100.0);
    PriceAbove70(Banana, 50.0);
    PriceAbove70(Orange, 75.0);
    PriceAbove70(Milk, 120.0);
  }

  lemma PricesAbove70()
    ensures Seqs.Filter(Products, Matcher("price", Gt, Numeric(70.0))) == Above70
  {
    PriceDecisions();
    FilterOfFour(Apple, Banana, Orange, Milk, Matcher("price", Gt, Numeric(70.0)));
  }

  /** `price>70` keeps Apple, Orange and Milk, in file order. */
  lemma FilterPriceAbove70()
    ensures Uniform(Products)
    ensures ApplyFilter(Products, "price", Gt, "70") == Success(Above70)
  {
    ProductsFields();
    Spellings();
    Numbers.ParseNumOfNat(70);
    var keep := Matcher("price", Gt, ResolveMode("70"));
    assert ResolveMode("70") == Numeric(70.0);
    PricesAbove70();
    assert "price" in Products[0];
    assert ApplyFilter(Products, "price", Gt, "70") == Success(Seqs.Filter(Products, keep));
  }

  /** `product=Banana` compares text and keeps only Banana. */
  lemma FilterProductIsBanana()
    ensures Uniform(Products)
    ensures ApplyFilter(Products, "product", Eq, "Banana") == Success([Banana])
  {
    ProductsFields();
    TextCell("Banana");
    var keep := Matcher("product", Eq, ResolveMode("Banana"));
    assert ResolveMode("Banana") == Text("Banana");
    assert keep(Banana) && !keep(Apple) && !keep(Orange) && !keep(Milk);
    FilterOfFour(Apple, Banana, Orange, Milk, keep);
    assert Seqs.Filter(Products, keep) == [Banana];
    assert "product" in Products[0];
    assert ApplyFilter(Products, "product", Eq, "Banana") == Success(Seqs.Filter(Products, keep));
  }

  lemma FilterMissingColumn()
    ensures Uniform(Products)
    ensures ApplyFilter(Products, "color", Eq, "red") == Failure(ColumnNotFound("color"))
  {
    ProductsFields();
    assert "color" !in Products[0];
  }

  /** `--where invalid>100` parses, then fails on the missing column. */
  lemma WhereOnMissingColumn()
    ensures ParseFilter(InvalidAbove100) == Success(Condition("invalid", Gt, "100"))
    ensures Uniform(Products)
    ensures ApplyFilter(Products, "invalid", Gt, "100") == Failure(ColumnNotFound("invalid"))
  {
    ColumnNamesPlain();
    ParsesAsCondition(InvalidAbove100, "invalid", Gt, "100");
    ProductsFields();
    assert "invalid" !in Products[0];
  }

  /** A table whose column reads, row by row, as `vs`. */
  lemma ColumnReadsAs(t: Table, column: string, vs: seq<real>)
    requires |vs| == |t|
    requires forall i :: 0 <= i < |t| ==> column in t[i] && Numbers.ParseNum(t[i][column]) == Some(vs[i])
    ensures AllNumeric(t, column)
    ensures ColumnValues(t, column) == vs
  {
  }

  lemma PriceColumn()
    ensures Uniform(Products)
    ensures AllNumeric(Products, "price")
    ensures ColumnValues(Products, "price") == [100.0, 50.0, 75.0, 120.0]
  {
    ProductsFields();
    Spellings();
    var vs := [100.0, 50.0, 75.0, 120.0];
    forall i | 0 <= i < |Products| ensures "price" in Products[i] && Numbers.ParseNum(Products[i]["price"]) == Some(vs[i]) {
      if i == 0 {
        NumberCell(Products[0], "price", 100);
      } else if i == 1 {
        NumberCell(Products[1], "price", 50);
      } else if i == 2 {
        NumberCell(Products[2], "price", 75);
      } else {
        NumberCell(Products[3], "price", 120);
      }
    }
    ColumnReadsAs(Products, "price", vs);
  }

  lemma SumOfFour(a: real, b: real, c: real, d: real)
    ensures Sum([a, b, c, d]) == a + b + c + d
  {
    var s := [a, b, c, d];
    assert s[1..] == [b, c, d] && s[1..][1..] == [c, d] && s[1..][1..][1..] == [d];
    assert s[1..][1..][1..][1..] == [];
    assert Sum([d]) == d + Sum([]);
    assert Sum([c, d]) == c + Sum([d]);
    assert Sum([b, c, d]) == b + Sum([c, d]);
  }

  lemma SumOfThree(a: real, b: real, c: real)
    ensures Sum([a, b, c]) == a + b + c
  {
    var s := [a, b, c];
    assert s[1..] == [b, c] && s[1..][1..] == [c] && s[1..][1..][1..] == [];
    assert Sum([c]) == c + Sum([]);
    assert Sum([b, c]) == b + Sum([c]);
  }

  /** Once the column is known to read as `vs`, `avg` is the rounded mean of `vs`. */
  lemma AvgOf(t: Table, column: string, vs: seq<real>, total: real)
    requires Uniform(t) && |t| > 0 && column in t[0]
    requires AllNumeric(t, column) && ColumnValues(t, column) == vs
    requires Sum(vs) == total
    ensures ApplyAgg(t, column, "avg") == Success(Some(Numbers.Round2(total / |t| as real)))
  {
    assert CollectNumbers(t, column) == Success(vs);
  }

  lemma MinOf(t: Table, column: string, vs: seq<real>)
    requires Uniform(t) && |t| > 0 && column in t[0]
    requires AllNumeric(t, column) && ColumnValues(t, column) == vs
    ensures ApplyAgg(t, column, "min") == Success(Some(Min(vs)))
  {
    assert CollectNumbers(t, column) == Success(vs);
  }

  lemma MaxOf(t: Table, column: string, vs: seq<real>)
    requires Uniform(t) && |t| > 0 && column in t[0]
    requires AllNumeric(t, column) && ColumnValues(t, column) == vs
    ensures ApplyAgg(t, column, "max") == Success(Some(Max(vs)))
  {
    assert CollectNumbers(t, column) == Success(vs);
  }

  lemma RoundingExamples()
    ensures Numbers.Round2(345.0 / 4.0) == 86.25
    ensures Numbers.Round2(155.0 / 3.0) == 51.67
  {
    assert (345.0 / 4.0 * 100.0).Floor == 8625;
    assert (155.0 / 3.0 * 100.0).Floor == 5166;
  }

  /** `avg(price)` over the four products is 86.25. */
  lemma AvgPrice()
    ensures Uniform(Products)
    ensures ApplyAgg(Products, "price", "avg") == Success(Some(86.25))
  {
    PriceColumn();
    var vs := [100.0, 50.0, 75.0, 120.0];
    SumOfFour(100.0, 50.0, 75.0, 120.0);
    AvgOf(Products, "price", vs, 345.0);
    RoundingExamples();
  }

  /** `min(price)` is 50: the only price that is no greater than every price. */
  lemma MinPrice()
    ensures Uniform(Products)
    ensures ApplyAgg(Products, "price", "min") == Success(Some(50.0))
  {
    PriceColumn();
    var vs := [100.0, 50.0, 75.0, 120.0];
    MinOf(Products, "price", vs);
    assert Min(vs) <= vs[1];
  }

  /** `max(price)` is 120. */
  lemma MaxPrice()
    ensures Uniform(Products)
    ensures ApplyAgg(Products, "price", "max") == Success(Some(120.0))
  {
    PriceColumn();
    var vs := [100.0, 50.0, 75.0, 120.0];
    MaxOf(Products, "price", vs);
    assert vs[3] <= Max(vs);
  }

  lemma AggMissingColumn()
    ensures Uniform(Products)
    ensures ApplyAgg(Products, "color", "avg") == Failure(ColumnNotFound("color"))
  {
    ProductsFields();
    assert "color" !in Products[0];
  }

  /** Product names are not numbers: the first, `Apple`, is reported. */
  lemma AggNonNumericColumn()
    ensures Uniform(Products)
    ensures ApplyAgg(Products, "product", "avg") == Failure(NonNumericValue("product", "Apple"))
  {
    ProductsFields();
    assert Products[0] == Apple;
    TextCell(Products[0]["product"]);
    assert !AllNumeric(Products, "product");
  }

  /** `sum(price)` parses, then fails as an unknown function. */
  lemma AggUnknownFunction()
    ensures Uniform(Products)
    ensures ParseAgg(SumPriceText) == Success(AggCall("sum", "price"))
    ensures ApplyAgg(Products, "price", "sum") == Failure(UnknownFunction("sum"))
  {
    ParsesAsCall(SumPriceText, "sum", "price");
    assert ApplyAgg(Products, "price", "sum") == Failure(UnknownFunction("sum")) by {
      PriceColumn();
      assert !IsKnownFunction("sum");
    }
    PriceColumn();
  }

  lemma Above70Uniform()
    ensures Uniform(Above70)
    ensures "stock" in Apple
  {
    ProductsFields();
  }

  lemma StockColumnAbove70()
    ensures AllNumeric(Above70, "stock")
    ensures ColumnValues(Above70, "stock") == [50.0, 75.0, 30.0]
  {
    ProductsFields();
    Spellings();
    var t := Above70;
    var vs := [50.0, 75.0, 30.0];
    forall i | 0 <= i < |t| ensures "stock" in t[i] && Numbers.ParseNum(t[i]["stock"]) == Some(vs[i]) {
      if i == 0 {
        NumberCell(t[0], "stock", 50);
      } else if i == 1 {
        NumberCell(t[1], "stock", 75);
      } else {
        NumberCell(t[2], "stock", 30);
      }
    }
    ColumnReadsAs(t, "stock", vs);
  }

  lemma AvgStockAbove70()
    ensures Uniform(Above70)
    ensures ApplyAgg(Above70, "stock", "avg") == Success(Some(51.67))
  {
    Above70Uniform();
    StockColumnAbove70();
    var vs := [50.0, 75.0, 30.0];
    SumOfThree(50.0, 75.0, 30.0);
    AvgOf(Above70, "stock", vs, 155.0);
    RoundingExamples();
  }

  /** The condition of the run `--where price>70 --aggregate avg(stock)`. */
  lemma WhereAbove70Parses()
    ensures ParseFilter(PriceAbove70Text) == Success(Condition("price", Gt, "70"))
  {
    ColumnNamesPlain();
    ParsesAsCondition(PriceAbove70Text, "price", Gt, "70");
  }

  /** The whole run `--where price>70 --aggregate avg(stock)`: the label is
      `avg(stock)` and the value 51.67. */
  lemma FilterThenAverage()
    ensures ParseFilter(PriceAbove70Text) == Success(Condition("price", Gt, "70"))
    ensures Uniform(Products)
    ensures ApplyFilter(Products, "price", Gt, "70") == Success(Above70)
    ensures ParseAgg(AvgStockText) == Success(AggCall("avg", "stock"))
    ensures CallText(AggCall("avg", "stock")) == "avg(stock)"
    ensures Uniform(Above70)
    ensures ApplyAgg(Above70, "stock", "avg") == Success(Some(51.67))
  {
    assert ParseAgg(AvgStockText) == Success(AggCall("avg", "stock")) by {
      ParsesAsCall(AvgStockText, "avg", "stock");
    }
    WhereAbove70Parses();
    FilterPriceAbove70();
    AvgStockAbove70();
  }

  /** The products file's column order. */
  const ProductHeaders: seq<string> := ["product", "price", "stock"]

  lemma ProductHeadersListKeys()
    ensures Layout.ListsKeys(ProductHeaders, Products[0])
  {
    ProductsFields();
    assert Products[0].Keys == {"product", "price", "stock"};
  }

  /** Printing the products shows the three headers in the header line and
      `Apple` in the first row's line. */
  lemma ProductsTableShown()
    ensures |Layout.RenderTable(Products, ProductHeaders)| == 6
    ensures Strings.Contains(Layout.RenderTable(Products, ProductHeaders)[0], "product")
    ensures Strings.Contains(Layout.RenderTable(Products, ProductHeaders)[0], "price")
    ensures Strings.Contains(Layout.RenderTable(Products, ProductHeaders)[0], "stock")
    ensures Strings.Contains(Layout.RenderTable(Products, ProductHeaders)[2], "Apple")
  {
    ProductHeadersListKeys();
    ProductsFields();
    Layout.TextShown(Products, ProductHeaders, 0, 0);
    Layout.TextShown(Products, ProductHeaders, 0, 1);
    Layout.TextShown(Products, ProductHeaders, 0, 2);
    Layout.TextShown(Products, ProductHeaders, 2, 0);
    assert Layout.LineCells(Products, ProductHeaders, 2)[0] == Layout.CellText(Apple, "product") == "Apple";
  }
}
