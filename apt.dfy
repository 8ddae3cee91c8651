/**
 * An apartment record: address, unit number, city, ZIP code, monthly price and square footage.
 * The record is mutable (its price can be changed) and the priority queues hold references to
 * it, so it is a class. The address and city are Java strings, which may be null (the empty
 * constructor leaves them so), hence Option.
 */
module Apartments {
  import opened Wrappers

  class APT {
    var address: Option<string>
    var num: int
    var city: Option<string>
    var zip: int
    var price: int
    var sf: int

    /** new APT(): no address or city, every number zero. */
    constructor Empty()
      ensures GetAddress() == None && GetNum() == 0 && GetCity() == None
      ensures GetZip() == 0 && GetPrice() == 0 && GetSf() == 0
    {
      address := None;
      num := 0;
      city := None;
      zip := 0;
      price := 0;
      sf := 0;
    }

    /** new APT(address, num, city, zip, price, sf): each getter returns the value given. */
    constructor (address: Option<string>, num: int, city: Option<string>, zip: int, price: int, sf: int)
      ensures GetAddress() == address && GetNum() == num && GetCity() == city
      ensures GetZip() == zip && GetPrice() == price && GetSf() == sf
    {
      this.address := address;
      this.num := num;
      this.city := city;
      this.zip := zip;
      this.price := price;
      this.sf := sf;
    }

    function GetAddress(): Option<string> reads this { address }
    function GetNum(): int reads this { num }
    function GetCity(): Option<string> reads this { city }
    function GetZip(): int reads this { zip }
    function GetPrice(): int reads this { price }
    function GetSf(): int reads this { sf }

    /** setPrice(p): the price becomes p and nothing else about the record changes. */
    method SetPrice(p: int)
      modifies this
      ensures GetPrice() == p
      ensures GetAddress() == old(GetAddress()) && GetNum() == old(GetNum()) && GetCity() == old(GetCity())
      ensures GetZip() == old(GetZip()) && GetSf() == old(GetSf())
    {
      price := p;
    }
  }
}
