/**
  The key transfer of sell_car: a showroom keeps its unsold cars in one tree and its
  sold cars in another, and each salesperson keeps the cars they sold in a third, all
  keyed by VIN. Selling looks the car up in the unsold stock, deletes it there and
  inserts the same car record into both sold-car trees.
 */
module Showroom {
  import opened Wrappers
  import opened KeySeq
  import opened BPTree
  import opened InsertProofs
  import opened DeleteProofs

  /** The three trees a sale touches; a payload stands for the car record's address. */
  datatype Books<T> = Books(available: Tree<T>, sold: Tree<T>, salespersonSold: Tree<T>)

  /** Each tree is a valid B+ tree, and the two that grow are within the descent stack. */
  ghost predicate Ready<T>(b: Books<T>) {
    && Valid(b.available) && Valid(b.sold) && Valid(b.salespersonSold)
    && (b.sold.Some? ==> Height(b.sold.value) <= STACK_DEPTH)
    && (b.salespersonSold.Some? ==> Height(b.salespersonSold.value) <= STACK_DEPTH)
  }

  /**
    sell_car without its record copying and its float bookkeeping: a VIN missing from the
    unsold stock changes nothing; otherwise the car moves from the unsold stock into the
    showroom's and the salesperson's sold cars.
   */
  function SellCar<T>(b: Books<T>, vin: int): Books<T>
    requires Ready(b)
  {
    match Lookup(Contents(b.available), vin)
    case None => b
    case Some(car) =>
      Books(Delete(b.available, vin), Insert(b.sold, vin, car), Insert(b.salespersonSold, vin, car))
  }

  /**
    A sale of a car not sold before keeps all three trees valid; afterwards the VIN is
    no longer in the unsold stock and maps to the same car in both sold-car trees, and
    every other VIN maps to what it mapped to before, in each of the three trees.
   */
  lemma SellCarMovesCar<T>(b: Books<T>, vin: int, k: int)
    requires Ready(b)
    requires vin !in KeysOf(Contents(b.sold)) && vin !in KeysOf(Contents(b.salespersonSold))
    ensures var b' := SellCar(b, vin);
      && Valid(b'.available) && Valid(b'.sold) && Valid(b'.salespersonSold)
      && match Lookup(Contents(b.available), vin)
         case None => b' == b
         case Some(car) =>
           && Lookup(Contents(b'.available), k) == (if k == vin then None else Lookup(Contents(b.available), k))
           && Lookup(Contents(b'.sold), k) == (if k == vin then Some(car) else Lookup(Contents(b.sold), k))
           && Lookup(Contents(b'.salespersonSold), k)
              == (if k == vin then Some(car) else Lookup(Contents(b.salespersonSold), k))
  {
    match Lookup(Contents(b.available), vin)
    case None =>
    case Some(car) =>
      DeleteCorrect(b.available, vin);
      DeleteThenLookup(b.available, vin, k);
      InsertCorrect(b.sold, vin, car);
      InsertThenLookup(b.sold, vin, car, k);
      InsertCorrect(b.salespersonSold, vin, car);
      InsertThenLookup(b.salespersonSold, vin, car, k);
  }
}
