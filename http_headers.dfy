/**
 * lighttpd2's header store (src/http_headers.c): a reference-counted queue of
 * header entries, mutated in place.  The GQueue of entries is the sequence
 * `entries`; a GList cursor is an index into it and NULL is None.
 */
module HttpHeaders {
  import opened Wrappers
  import opened Ascii
  import opened HeaderSpec

  class Headers {
    var entries: seq<Header>
    var refcount: int

    /** Every stored line has its ": " separator after the key. */
    ghost predicate Valid()
      reads this
    {
      AllWellFormed(entries)
    }

    /** http_headers_new: an empty queue owned once. */
    constructor ()
      ensures Valid() && entries == [] && refcount == 1
    {
      entries := [];
      refcount := 1;
    }

    /** http_headers_reset: drop every entry, in place; the count is not touched. */
    method Reset()
      modifies this
      ensures Valid() && entries == [] && refcount == old(refcount)
    {
      entries := [];
    }

    /** http_headers_acquire: one more owner. */
    method Acquire()
      requires refcount > 0
      modifies this
      ensures refcount == old(refcount) + 1 && entries == old(entries)
    {
      refcount := refcount + 1;
    }

    /**
     * http_headers_try_reset, the copy-on-write reset: the sole owner gets
     * the same store back, emptied; otherwise the caller gives up its share
     * of this store, which keeps its entries for the other owners, and gets
     * a new empty store of its own.
     */
    method TryReset() returns (r: Headers)
      requires refcount > 0
      modifies this
      ensures r.Valid() && r.entries == [] && r.refcount == 1
      ensures old(refcount) == 1 ==> r == this
      ensures old(refcount) > 1 ==> fresh(r) && refcount == old(refcount) - 1 && entries == old(entries)
    {
      refcount := refcount - 1;
      if refcount == 0 {
        Reset();
        refcount := 1;
        r := this;
      } else {
        r := new Headers();
      }
    }

    /** http_header_insert: append one new entry at the tail; duplicates are kept. */
    method Insert(key: string, value: string)
      requires Valid()
      modifies this
      ensures Valid() && refcount == old(refcount)
      ensures entries == old(entries) + [NewHeader(key, value)]
    {
      entries := entries + [NewHeader(key, value)];
    }

    /** http_header_find_first: the first entry whose key matches. */
    method FindFirst(key: string) returns (l: Option<nat>)
      ensures l == NextMatch(entries, key, 0)
    {
      var i := 0;
      while i < |entries|
        invariant 0 <= i <= |entries|
        invariant NextMatch(entries, key, i) == NextMatch(entries, key, 0)
      {
        if Matches(entries[i], key) {
          return Some(i);
        }
        i := i + 1;
      }
      return None;
    }

    /** http_header_find_next: the first matching entry after cursor `i`. */
    method FindNext(i: nat, key: string) returns (l: Option<nat>)
      requires i < |entries|
      ensures l == NextMatch(entries, key, i + 1)
    {
      var j := i + 1;
      while j < |entries|
        invariant i + 1 <= j <= |entries|
        invariant NextMatch(entries, key, j) == NextMatch(entries, key, i + 1)
      {
        if Matches(entries[j], key) {
          return Some(j);
        }
        j := j + 1;
      }
      return None;
    }

    /** http_header_find_last: scanning from the tail, the most recent matching entry. */
    method FindLast(key: string) returns (l: Option<nat>)
      ensures l == LastMatch(entries, key)
    {
      var i := |entries|;
      while i > 0
        invariant 0 <= i <= |entries|
        invariant LastMatchBefore(entries, key, i) == LastMatch(entries, key)
      {
        if Matches(entries[i - 1], key) {
          return Some(i - 1);
        }
        i := i - 1;
      }
      return None;
    }

    /**
     * http_header_append: with no occurrence of `key`, an insert; otherwise
     * ", " + value is appended to the last occurrence's line.
     *
     * The C code at src/http_headers.c:116 casts the list link itself to an
     * entry (`(http_header*) l` instead of `l->data`) and so writes into the
     * list node; this model does what the comment at line 107 says instead.
     */
    method Append(key: string, value: string)
      requires Valid()
      modifies this
      ensures Valid() && refcount == old(refcount)
      ensures entries == Appended(old(entries), key, value)
      ensures LastMatch(old(entries), key).None? ==> entries == old(entries) + [NewHeader(key, value)]
      ensures LastMatch(old(entries), key).Some? ==>
        var i := LastMatch(old(entries), key).value;
        var h := old(entries)[i];
        && entries == old(entries)[i := Header(h.data + ", " + value, h.keylen)]
        && Matches(entries[i], key)
        && entries[i].Value() == h.Value() + ", " + value
    {
      var l := FindLast(key);
      if l.None? {
        Insert(key, value);
      } else {
        var h := entries[l.value];
        entries := entries[l.value := Header(h.data + ", " + value, h.keylen)];
      }
    }

    /**
     * http_header_overwrite: with no occurrence of `key`, an insert; otherwise
     * the last occurrence's line becomes key + ": " + value (same key length,
     * so keylen stays), and earlier occurrences stay as they are.
     *
     * Like append, the C code at src/http_headers.c:131 casts the list link
     * instead of its data; this model follows the comment at line 122.
     */
    method Overwrite(key: string, value: string)
      requires Valid()
      modifies this
      ensures Valid() && refcount == old(refcount)
      ensures entries == Overwritten(old(entries), key, value)
      ensures LastMatch(old(entries), key).None? ==> entries == old(entries) + [NewHeader(key, value)]
      ensures LastMatch(old(entries), key).Some? ==>
        var i := LastMatch(old(entries), key).value;
        && entries == old(entries)[i := NewHeader(key, value)]
        && entries[i].keylen == old(entries)[i].keylen
        && entries[i].Value() == value
    {
      var l := FindLast(key);
      if l.None? {
        Insert(key, value);
      } else {
        entries := entries[l.value := NewHeader(key, value)];
      }
    }

    /** http_header_remove_link: delete exactly the entry at cursor `i`. */
    method RemoveLink(i: nat)
      requires i < |entries|
      modifies this
      ensures old(Valid()) ==> Valid()
      ensures refcount == old(refcount)
      ensures entries == old(entries)[..i] + old(entries)[i + 1..]
    {
      entries := entries[..i] + entries[i + 1..];
    }

    /**
     * http_header_remove: delete every occurrence of `key`.  As in the C code,
     * the entry found last is only deleted once the scan has moved past it
     * (the pending cursor `lp`); deleting it shifts later cursors down by one.
     * The C loop's first round, the only one where `lp` is still NULL, is
     * written out before the loop, so that `p` below is always the pending cursor.
     */
    method Remove(key: string) returns (res: bool)
      modifies this
      ensures old(Valid()) ==> Valid()
      ensures refcount == old(refcount)
      ensures entries == Without(old(entries), key)
      ensures res <==> exists j | 0 <= j < |old(entries)| :: Matches(old(entries)[j], key)
    {
      ghost var E := entries;
      var l := FindFirst(key);
      if l.None? {
        WithoutNoMatch(E, key);
        return false;
      }
      var p := l.value;
      RemoveFirst(E, key, p);
      ghost var g: nat := p;  // the position in E of the entry pending at p
      l := FindNext(p, key);
      while l.Some?
        invariant refcount == old(refcount)
        invariant Pending(E, key, g, entries, p)
        invariant l == NextMatch(entries, key, p + 1)
        decreases |entries| - p
      {
        var c := l.value;
        ghost var g' := g + c - p;
        RemoveRound(E, key, g, entries, p, c, g');
        RemoveLink(p);
        p := c - 1;  // the deletion moved every later entry down by one
        g := g';
        l := FindNext(p, key);
      }
      RemoveFinal(E, key, g, entries, p);
      RemoveLink(p);
      res := true;
      if AllWellFormed(E) {
        WithoutWellFormed(E, key);
      }
    }

    /** http_header_lookup: the entry of the last occurrence of `key` ("last one wins"), or None. */
    method Lookup(key: string) returns (h: Option<Header>)
      ensures h.None? <==> forall j | 0 <= j < |entries| :: !Matches(entries[j], key)
      ensures h.Some? ==> exists i | 0 <= i < |entries| ::
        (h.value == entries[i] && Matches(entries[i], key)
         && forall j | i < j < |entries| :: !Matches(entries[j], key))
      ensures h.Some? <==> LastMatch(entries, key).Some?
      ensures h.Some? ==> h.value == entries[LastMatch(entries, key).value]
    {
      var l := FindLast(key);
      if l.None? {
        h := None;
      } else {
        h := Some(entries[l.value]);
      }
    }

    /**
     * http_header_is: does some occurrence of `key` carry a value of the same
     * length as `val` that equals it up to ASCII case?
     */
    method Is(key: string, val: string) returns (b: bool)
      requires Valid()
      ensures b <==> AnyValueIs(entries, key, val)
    {
      ghost var from := 0;
      var l := FindFirst(key);
      while l.Some?
        invariant l == NextMatch(entries, key, from)
        invariant NoValueBefore(entries, key, val, from)
        decreases |entries| - from
      {
        var h := entries[l.value];
        var value := h.data[h.keylen + 2..];
        if |value| == |val| && CaseEqual(value, val) {
          return true;
        }
        IsStep(entries, key, val, from, l.value);
        from := l.value + 1;
        l := FindNext(l.value, key);
      }
      IsEnd(entries, key, val, from);
      return false;
    }

    /**
     * http_header_get_fast: the values of all occurrences of `key`, in arrival
     * order, with ", " put before a value only when the text so far is not empty.
     */
    method GetFast(key: string) returns (dest: string)
      ensures dest == Join(Values(entries, key))
    {
      dest := "";
      ghost var from := 0;
      var l := FindFirst(key);
      while l.Some?
        invariant from <= |entries|
        invariant l == NextMatch(entries, key, from)
        invariant dest == Join(Values(entries[..from], key))
        decreases |entries| - from
      {
        var c := l.value;
        GetFastStep(entries, key, from, c, dest);
        if |dest| > 0 {
          dest := dest + ", ";
        }
        dest := dest + entries[c].Value();
        from := c + 1;
        l := FindNext(c, key);
      }
      GetFastEnd(entries, key, from);
    }
  }

  /**
   * http_headers_release: one owner fewer; the last one destroys the store
   * (modelled by emptying it).  A null store is ignored.
   */
  method Release(headers: Headers?) returns (destroyed: bool)
    requires headers != null ==> headers.refcount > 0
    modifies headers
    ensures headers == null ==> !destroyed
    ensures headers != null ==> headers.refcount == old(headers.refcount) - 1
    ensures headers != null ==> (destroyed <==> old(headers.refcount) == 1)
    ensures headers != null && destroyed ==> headers.entries == []
    ensures headers != null && !destroyed ==> headers.entries == old(headers.entries)
  {
    if headers == null {
      return false;
    }
    headers.refcount := headers.refcount - 1;
    destroyed := headers.refcount == 0;
    if destroyed {
      headers.entries := [];
    }
  }
}
