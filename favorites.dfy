/** FavoriteManager.kt: the favourite items, kept as one stored set that each
    operation reads, changes and writes back. The JSON text in the
    preferences is replaced by what decoding it yields. */
module Favorites {
  import opened Wrappers
  import opened Models

  /** What the preferences hold under the key "favorite_items": nothing, a
      text that decodes to a set of items, or one that fails to decode. */
  datatype Stored = Absent | Decodable(items: set<ArchiveItem>) | Undecodable

  /** The identifiers occurring in a set of items. */
  function Identifiers(s: set<ArchiveItem>): (ids: set<string>)
    ensures forall x :: x in s ==> x.identifier in ids
    ensures forall id :: id in ids ==> exists x :: x in s && x.identifier == id
  {
    set x | x in s :: x.identifier
  }

  /** `favorites.add(item)` on a set compared by whole value. */
  function WithFavorite(s: set<ArchiveItem>, item: ArchiveItem): (r: set<ArchiveItem>)
    ensures item in r && s <= r
    ensures forall x :: x in r ==> x in s || x == item
  {
    s + {item}
  }

  /** `favorites.removeIf { it.identifier == id }`. */
  function WithoutIdentifier(s: set<ArchiveItem>, id: string): (r: set<ArchiveItem>)
    ensures r <= s
    ensures id !in Identifiers(r)
    ensures forall x :: x in s && x.identifier != id ==> x in r
  {
    set x | x in s && x.identifier != id
  }

  /** Adding an item that is already there changes nothing. */
  lemma {:induction false} AddIdempotent(s: set<ArchiveItem>, item: ArchiveItem)
    ensures WithFavorite(WithFavorite(s, item), item) == WithFavorite(s, item)
  {
  }

  /** Membership is by whole value: two items that share an identifier but
      differ in another field are both kept. */
  lemma {:induction false} SharedIdentifierKeptTwice(a: ArchiveItem, b: ArchiveItem)
    requires a.identifier == b.identifier && a != b
    ensures |WithFavorite(WithFavorite({}, a), b)| == 2
  {
    assert WithFavorite(WithFavorite({}, a), b) == {a} + {b};
  }

  /** Removing by identifier removes every item with that identifier, so
      removal undoes an addition of an item whose identifier was new. */
  lemma {:induction false} RemoveUndoesAdd(s: set<ArchiveItem>, item: ArchiveItem)
    requires item.identifier !in Identifiers(s)
    ensures WithoutIdentifier(WithFavorite(s, item), item.identifier) == s
  {
    var r := WithoutIdentifier(WithFavorite(s, item), item.identifier);
    forall x | x in s ensures x in r {
      assert x.identifier in Identifiers(s);
    }
  }

  /** `xs` lists the elements of `s`, each once, in some order. */
  predicate Enumerates(xs: seq<ArchiveItem>, s: set<ArchiveItem>) {
    (forall x :: x in xs ==> x in s) && (forall x :: x in s ==> x in xs) && |xs| == |s|
  }

  /** `toList()` of a set. */
  method ListOf(s: set<ArchiveItem>) returns (xs: seq<ArchiveItem>)
    ensures Enumerates(xs, s)
  {
    xs := [];
    var rest := s;
    while rest != {}
      invariant forall x :: x in s <==> x in xs || x in rest
      invariant forall x :: x in rest ==> x in s
      invariant |xs| + |rest| == |s|
      decreases rest
    {
      var x :| x in rest;
      xs := xs + [x];
      rest := rest - {x};
    }
  }

  class FavoriteManager {
    var stored: Stored

    constructor (stored: Stored)
      ensures this.stored == stored
    {
      this.stored := stored;
    }

    /** `getFavorites()`: the decoded set, or the empty set when nothing is
        stored or the stored text fails to decode. */
    function GetFavorites(): (r: set<ArchiveItem>)
      reads this
      ensures stored.Decodable? ==> r == stored.items
      ensures !stored.Decodable? ==> r == {}
    {
      match stored
      case Decodable(items) => items
      case _ => {}
    }

    /** `isFavorite(identifier)`. */
    function IsFavorite(identifier: string): (b: bool)
      reads this
      ensures b <==> exists x :: x in GetFavorites() && x.identifier == identifier
    {
      identifier in Identifiers(GetFavorites())
    }

    /** `addFavorite(item)`. */
    method AddFavorite(item: ArchiveItem)
      modifies this
      ensures stored == Decodable(WithFavorite(old(GetFavorites()), item))
      ensures IsFavorite(item.identifier)
    {
      stored := Decodable(WithFavorite(GetFavorites(), item));
      assert item in GetFavorites();
    }

    /** `removeFavorite(item)`: removes by identifier, not by value. */
    method RemoveFavorite(item: ArchiveItem)
      modifies this
      ensures stored == Decodable(WithoutIdentifier(old(GetFavorites()), item.identifier))
      ensures !IsFavorite(item.identifier)
      ensures forall x :: x in old(GetFavorites()) && x.identifier != item.identifier ==> x in GetFavorites()
    {
      stored := Decodable(WithoutIdentifier(GetFavorites(), item.identifier));
    }
  }
}
