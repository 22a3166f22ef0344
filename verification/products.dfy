/** The wireless-device product types: a code and a label per commercial
    reference, looked up by code. Unlike the closed enumerations, an
    unknown code is not an error. */
module Products {
  import opened Wrappers
  import opened Enums

  datatype ProductType =
    | A9MEM1520 | A9MEM1521 | A9MEM1522 | A9MEM1540 | A9MEM1541 | A9MEM1542
    | A9MEM1560 | A9MEM1561 | A9MEM1562 | A9MEM1563 | A9MEM1570 | A9MEM1571 | A9MEM1572
    | LV434020 | LV434021 | LV434022 | LV434023 | A9MEM1543 | A9XMC2D3 | A9XMC1D3
    | A9MEM1564 | A9MEM1573 | A9MEM1574 | A9MEM1590 | A9MEM1591 | A9MEM1592 | A9MEM1593
    | A9MEM1580 | A9XMWRD | SMT10020

  /** The device code of a product type (the first field of its value). */
  function ProductCode(p: ProductType): nat
  {
    match p
    case A9MEM1520 => 41
    case A9MEM1521 => 42
    case A9MEM1522 => 43
    case A9MEM1540 => 44
    case A9MEM1541 => 45
    case A9MEM1542 => 46
    case A9MEM1560 => 81
    case A9MEM1561 => 82
    case A9MEM1562 => 83
    case A9MEM1563 => 84
    case A9MEM1570 => 85
    case A9MEM1571 => 86
    case A9MEM1572 => 87
    case LV434020 => 92
    case LV434021 => 93
    case LV434022 => 94
    case LV434023 => 95
    case A9MEM1543 => 96
    case A9XMC2D3 => 97
    case A9XMC1D3 => 98
    case A9MEM1564 => 101
    case A9MEM1573 => 102
    case A9MEM1574 => 103
    case A9MEM1590 => 104
    case A9MEM1591 => 105
    case A9MEM1592 => 106
    case A9MEM1593 => 107
    case A9MEM1580 => 121
    case A9XMWRD => 170
    case SMT10020 => 171
  }

  /** The human-readable label of a product type (the second field). */
  function ProductLabel(p: ProductType): string
  {
    match p
    case A9MEM1520 => "PowerTag M63 1P"
    case A9MEM1521 => "PowerTag M63 1P+N Top"
    case A9MEM1522 => "PowerTag M63 1P+N Bottom"
    case A9MEM1540 => "PowerTag M63 3P"
    case A9MEM1541 => "PowerTag M63 3P+N Top"
    case A9MEM1542 => "PowerTag M63 3P+N Bottom"
    case A9MEM1560 => "PowerTag F63 1P+N"
    case A9MEM1561 => "PowerTag P63 1P+N Top"
    case A9MEM1562 => "PowerTag P63 1P+N Bottom"
    case A9MEM1563 => "PowerTag P63 1P+N Bottom"
    case A9MEM1570 => "PowerTag F63 3P+N"
    case A9MEM1571 => "PowerTag P63 3P+N Top"
    case A9MEM1572 => "PowerTag P63 3P+N Bottom"
    case LV434020 => "PowerTag M250 3P"
    case LV434021 => "PowerTag M250 4P"
    case LV434022 => "PowerTag M630 3P"
    case LV434023 => "PowerTag M630 4P"
    case A9MEM1543 => "PowerTag M63 3P 230 V"
    case A9XMC2D3 => "PowerTag C 2DI 230 V"
    case A9XMC1D3 => "PowerTag C IO 230 V"
    case A9MEM1564 => "PowerTag F63 1P+N 110 V"
    case A9MEM1573 => "PowerTag F63 3P"
    case A9MEM1574 => "PowerTag F63 3P+N 110/230 V"
    case A9MEM1590 => "PowerTag R200"
    case A9MEM1591 => "PowerTag R600"
    case A9MEM1592 => "PowerTag R1000"
    case A9MEM1593 => "PowerTag R2000"
    case A9MEM1580 => "PowerTag F160"
    case A9XMWRD => "PowerTag Link display"
    case SMT10020 => "HeatTag sensor"
  }

  /** Number of product types. */
  const ProductCount := 30

  /** The product type declared at position `i`. */
  function ProductAt(i: nat): ProductType
    requires i < ProductCount
  {
    match i
    case 0 => A9MEM1520
    case 1 => A9MEM1521
    case 2 => A9MEM1522
    case 3 => A9MEM1540
    case 4 => A9MEM1541
    case 5 => A9MEM1542
    case 6 => A9MEM1560
    case 7 => A9MEM1561
    case 8 => A9MEM1562
    case 9 => A9MEM1563
    case 10 => A9MEM1570
    case 11 => A9MEM1571
    case 12 => A9MEM1572
    case 13 => LV434020
    case 14 => LV434021
    case 15 => LV434022
    case 16 => LV434023
    case 17 => A9MEM1543
    case 18 => A9XMC2D3
    case 19 => A9XMC1D3
    case 20 => A9MEM1564
    case 21 => A9MEM1573
    case 22 => A9MEM1574
    case 23 => A9MEM1590
    case 24 => A9MEM1591
    case 25 => A9MEM1592
    case 26 => A9MEM1593
    case 27 => A9MEM1580
    case 28 => A9XMWRD
    case _ => SMT10020
  }

  /** The declaration position of a product type. */
  function Rank(p: ProductType): (i: nat)
    ensures i < ProductCount && ProductAt(i) == p
  {
    match p
    case A9MEM1520 => 0
    case A9MEM1521 => 1
    case A9MEM1522 => 2
    case A9MEM1540 => 3
    case A9MEM1541 => 4
    case A9MEM1542 => 5
    case A9MEM1560 => 6
    case A9MEM1561 => 7
    case A9MEM1562 => 8
    case A9MEM1563 => 9
    case A9MEM1570 => 10
    case A9MEM1571 => 11
    case A9MEM1572 => 12
    case LV434020 => 13
    case LV434021 => 14
    case LV434022 => 15
    case LV434023 => 16
    case A9MEM1543 => 17
    case A9XMC2D3 => 18
    case A9XMC1D3 => 19
    case A9MEM1564 => 20
    case A9MEM1573 => 21
    case A9MEM1574 => 22
    case A9MEM1590 => 23
    case A9MEM1591 => 24
    case A9MEM1592 => 25
    case A9MEM1593 => 26
    case A9MEM1580 => 27
    case A9XMWRD => 28
    case SMT10020 => 29
  }

  /** The product types in declaration order. */
  const Products: seq<ProductType> := seq(ProductCount, i requires 0 <= i < ProductCount => ProductAt(i))

  function CodeValue(p: ProductType): Option<nat>
  {
    Some(ProductCode(p))
  }

  /** The product type of a (possibly absent) code register: the first
      product whose code matches, or none. An absent register matches
      nothing. */
  function LookupProduct(code: Option<nat>): (r: Option<ProductType>)
    ensures r.Some? ==> code == Some(ProductCode(r.value))
    ensures code.None? ==> r.None?
  {
    FindMember(Products, CodeValue, code)
  }

  lemma ProductsComplete(p: ProductType)
    ensures p in Products
  {
    assert Products[Rank(p)] == p;
  }

  /** The table lists the codes in increasing order. */
  lemma ProductCodesAscending()
    ensures forall i :: 0 <= i < ProductCount - 1 ==> ProductCode(ProductAt(i)) < ProductCode(ProductAt(i + 1))
  {
    AscendingHead();
    AscendingMiddle();
    AscendingTail();
  }

  /** The first ten steps of the table ascend. */
  lemma AscendingHead()
    ensures forall i :: 0 <= i < 10 ==> ProductCode(ProductAt(i)) < ProductCode(ProductAt(i + 1))
  {
  }

  /** Steps ten to nineteen ascend. */
  lemma AscendingMiddle()
    ensures forall i :: 10 <= i < 20 ==> ProductCode(ProductAt(i)) < ProductCode(ProductAt(i + 1))
  {
  }

  /** The remaining steps ascend. */
  lemma AscendingTail()
    ensures forall i :: 20 <= i < ProductCount - 1 ==> ProductCode(ProductAt(i)) < ProductCode(ProductAt(i + 1))
  {
  }

  /** No two product types share a code. */
  lemma {:induction false} ProductCodesDistinct(i: nat, j: nat)
    requires i < j < |Products|
    ensures ProductCode(Products[i]) < ProductCode(Products[j])
    decreases j - i
  {
    ProductCodesAscending();
    assert Products[j] == ProductAt(j) && Products[j - 1] == ProductAt(j - 1);
    if j > i + 1 {
      ProductCodesDistinct(i, j - 1);
    }
  }

  /** Lookup finds a product type exactly when the code is its code. */
  lemma LookupProductExact(c: nat, p: ProductType)
    ensures LookupProduct(Some(c)) == Some(p) <==> ProductCode(p) == c
  {
    if ProductCode(p) == c {
      ProductsComplete(p);
      forall i, j | 0 <= i < j < |Products|
        ensures CodeValue(Products[i]) != CodeValue(Products[j])
      {
        ProductCodesDistinct(i, j);
      }
      FindMemberOfValue(Products, CodeValue, p);
    }
  }

  /** A code that belongs to no product type finds nothing. */
  lemma LookupProductUnknown(c: nat)
    requires forall p :: ProductCode(p) != c
    ensures LookupProduct(Some(c)) == None
  {
  }

  /** Code 92 is the PowerTag M250 3P. */
  lemma LookupProductExample()
    ensures LookupProduct(Some(92)) == Some(LV434020)
  {
    LookupProductExact(92, LV434020);
  }

  /** Code 0 and an absent register are no product. */
  lemma LookupProductNoMatch()
    ensures LookupProduct(Some(0)) == None
    ensures LookupProduct(None) == None
  {
    LookupProductUnknown(0);
  }
}
