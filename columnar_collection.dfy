/**
  * The iterator every columnar collection hands out. The collection itself
  * is abstract here: `items` stands for what its `size()` and `get(i)`
  * report, and, like every column, it only ever grows by appending.
  */
module ColumnarCollection {
  import opened Wrappers

  class Collection<E> {
    /** The elements, in insertion order. */
    var items: seq<E>

    constructor (items: seq<E>)
      ensures this.items == items
    {
      this.items := items;
    }

    /** `size()`. */
    function Size(): nat
      reads this
    {
      |items|
    }

    /** `get(index)`. */
    function Get(index: nat): E
      reads this
      requires index < |items|
    {
      items[index]
    }

    /** `add(elem)`: the one way the elements change. */
    method Add(elem: E)
      modifies this
      ensures items == old(items) + [elem]
    {
      items := items + [elem];
    }

    /** `iterator()`: a new iterator positioned before the first element. */
    method Iterator() returns (it: Itr<E>)
      ensures fresh(it) && it.owner == this
      ensures it.cursor == 0 && it.lastRet == -1
      ensures it.Valid() && it.Remaining() == items
    {
      it := new Itr(this);
    }

    /**
      * A for-each loop over the collection: a fresh iterator, `next()` while
      * `hasNext()`. It yields the elements in order, each exactly once, and
      * leaves the iterator at the end, with `hasNext()` false.
      */
    method Elements() returns (xs: seq<E>, it: Itr<E>)
      ensures xs == items
      ensures it.owner == this && it.Valid() && it.cursor == |items| && it.lastRet == |items| - 1
      ensures !it.HasNext()
    {
      it := Iterator();
      xs := [];
      while it.HasNext()
        invariant fresh(it) && it.owner == this && it.Valid()
        invariant xs == items[..it.cursor]
        decreases |items| - it.cursor
      {
        ghost var i := it.cursor;
        var r := it.Next();
        assert r.value == items[i];
        assert items[..i + 1] == items[..i] + [items[i]];
        xs := xs + [r.value];
      }
      assert items[..it.cursor] == items;
    }
  }

  /** `Itr`: `cursor` is the next index to return, `lastRet` the last one returned (-1 before any). */
  class Itr<E> {
    const owner: Collection<E>
    var cursor: int
    var lastRet: int

    /** The cursor never passes the end, and the last index returned is the one just before it. */
    ghost predicate Valid()
      reads this, owner
    {
      0 <= cursor <= |owner.items| && lastRet == cursor - 1
    }

    /** The elements still to be returned. */
    ghost function Remaining(): seq<E>
      reads this, owner
      requires Valid()
    {
      owner.items[cursor..]
    }

    constructor (owner: Collection<E>)
      ensures this.owner == owner && cursor == 0 && lastRet == -1
    {
      this.owner := owner;
      cursor := 0;
      lastRet := -1;
    }

    /** `hasNext()`: compares against `size()` as it is now, so elements appended since are seen. */
    function HasNext(): (b: bool)
      reads this, owner
      requires Valid()
      ensures b <==> Remaining() != []
      ensures b <==> cursor < owner.Size()
    {
      cursor != owner.Size()
    }

    /**
      * `next()`: past the end it fails with `NoSuchElementException` and
      * changes nothing; otherwise it returns the element at the cursor and
      * moves past it.
      */
    method Next() returns (r: Result<E>)
      requires Valid()
      modifies this
      ensures Valid()
      ensures old(Remaining()) == [] ==> r == Err(NoSuchElement) && unchanged(this)
      ensures old(Remaining()) != [] ==>
        && r == Ok(old(Remaining())[0])
        && Remaining() == old(Remaining())[1..]
        && lastRet == old(cursor)
        && cursor == old(cursor) + 1
    {
      var i := cursor;
      if i >= owner.Size() {
        return Err(NoSuchElement);
      }
      cursor := i + 1;
      lastRet := i;
      return Ok(owner.Get(lastRet));
    }

    /** `remove()`: never supported, and nothing changes. */
    method Remove() returns (o: Outcome)
      ensures o == Fail(UnsupportedOperation)
    {
      o := Fail(UnsupportedOperation);
    }
  }

  /**
    * An element appended while an iterator is live is still to come: the
    * iterator stays valid and what it has left grows by that element.
    */
  twostate lemma AppendSeen<E>(it: Itr<E>, elem: E)
    requires old(it.Valid()) && unchanged(it)
    requires it.owner.items == old(it.owner.items) + [elem]
    ensures it.Valid() && it.Remaining() == old(it.Remaining()) + [elem]
  {
  }
}
