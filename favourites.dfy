/**
 * The favourites lists of a user record, as the `favoriteProduct`,
 * `favoriteStores`, `unFavoriteProduct` and `unFavoriteStores` handlers
 * change them.
 */
module Favourites {
  import opened Wrappers

  type ObjectId = nat

  datatype FavouriteError =
    | AlreadyFavourited   // 400 "Produto já foi favoritado!" / "Loja já foi favoritado!"
    | NotAFavourite       // 400 "Loja não consta na lista de favoritos!"

  /** `Array.prototype.indexOf`: the first position of `x` in `s`, or -1. */
  function IndexOf(s: seq<ObjectId>, x: ObjectId): (i: int)
    ensures -1 <= i < |s|
    ensures i == -1 <==> x !in s
    ensures 0 <= i ==> s[i] == x && x !in s[..i]
  {
    if s == [] then -1
    else if s[0] == x then 0
    else
      var j := IndexOf(s[1..], x);
      assert j >= 0 ==> s[..j + 1] == [s[0]] + s[1..][..j];
      if j == -1 then -1 else j + 1
  }

  /** `indexOf` followed by `splice(index, 1)` when found: the first occurrence of `x` taken out. */
  function RemoveFirst(s: seq<ObjectId>, x: ObjectId): (r: seq<ObjectId>)
    ensures x !in s ==> r == s
    ensures x in s ==> |r| == |s| - 1 && multiset(r) == multiset(s) - multiset{x}
    ensures x in s ==> exists i :: 0 <= i < |s| && s[i] == x && x !in s[..i] && r == s[..i] + s[i + 1..]
  {
    var i := IndexOf(s, x);
    if i == -1 then s
    else
      assert s == s[..i] + [s[i]] + s[i + 1..];
      s[..i] + s[i + 1..]
  }

  /** Removing what was just added restores the list. */
  lemma AddThenRemove(s: seq<ObjectId>, x: ObjectId)
    requires x !in s
    ensures RemoveFirst(s + [x], x) == s
  {
    assert (s + [x])[..|s|] == s;
  }

  /** A user record; only its two favourites lists are modelled. */
  class User {
    var favoriteProducts: seq<ObjectId>
    var favoriteStores: seq<ObjectId>

    constructor (favoriteProducts: seq<ObjectId>, favoriteStores: seq<ObjectId>)
      ensures this.favoriteProducts == favoriteProducts && this.favoriteStores == favoriteStores
    {
      this.favoriteProducts := favoriteProducts;
      this.favoriteStores := favoriteStores;
    }

    /** `favoriteProduct`: a product already in the list is an error; otherwise it goes at the end. */
    method FavoriteProduct(productId: ObjectId) returns (r: Outcome<FavouriteError>)
      modifies this
      ensures r == (if productId in old(favoriteProducts) then Fail(AlreadyFavourited) else Pass)
      ensures favoriteProducts == if r.Pass? then old(favoriteProducts) + [productId] else old(favoriteProducts)
      ensures favoriteStores == old(favoriteStores)
    {
      if productId in favoriteProducts {
        return Fail(AlreadyFavourited);
      }
      favoriteProducts := favoriteProducts + [productId];
      r := Pass;
    }

    /** `favoriteStores`: a store already in the list is an error; otherwise it goes at the end. */
    method FavoriteStore(storeId: ObjectId) returns (r: Outcome<FavouriteError>)
      modifies this
      ensures r == (if storeId in old(favoriteStores) then Fail(AlreadyFavourited) else Pass)
      ensures favoriteStores == if r.Pass? then old(favoriteStores) + [storeId] else old(favoriteStores)
      ensures favoriteProducts == old(favoriteProducts)
    {
      if storeId in favoriteStores {
        return Fail(AlreadyFavourited);
      }
      favoriteStores := favoriteStores + [storeId];
      r := Pass;
    }

    /** `unFavoriteProduct`: drops the first occurrence; an absent product leaves the list as it is. */
    method UnFavoriteProduct(productId: ObjectId)
      modifies this
      ensures favoriteProducts == RemoveFirst(old(favoriteProducts), productId)
      ensures productId !in old(favoriteProducts) ==> favoriteProducts == old(favoriteProducts)
      ensures favoriteStores == old(favoriteStores)
    {
      var indexToRemove := IndexOf(favoriteProducts, productId);
      if indexToRemove != -1 {
        favoriteProducts := favoriteProducts[..indexToRemove] + favoriteProducts[indexToRemove + 1..];
      }
    }

    /** `unFavoriteStores`: a store not in the list is an error; otherwise its first occurrence goes. */
    method UnFavoriteStore(storeId: ObjectId) returns (r: Outcome<FavouriteError>)
      modifies this
      ensures r == (if storeId in old(favoriteStores) then Pass else Fail(NotAFavourite))
      ensures favoriteStores == RemoveFirst(old(favoriteStores), storeId)
      ensures favoriteProducts == old(favoriteProducts)
    {
      if storeId !in favoriteStores {
        return Fail(NotAFavourite);
      }
      var indexToRemove := IndexOf(favoriteStores, storeId);
      if indexToRemove != -1 {
        favoriteStores := favoriteStores[..indexToRemove] + favoriteStores[indexToRemove + 1..];
      }
      r := Pass;
    }
  }
}
