/**
 * The pure view of lighttpd2's header store: one entry per received header
 * line, kept in arrival order, with duplicates.  An entry holds the whole line
 * "<key>: <value>" in one buffer plus the length of the key, so the key and
 * the value are slices of that buffer.  Keys match up to ASCII case and only
 * when their lengths agree.
 *
 * The functions here are the specification the methods of HttpHeaders.Headers
 * are proved against; the lemmas state what section 3.2.2 of RFC 7230 expects
 * of the store (arrival order kept, repeated fields foldable with ", ").
 */
module HeaderSpec {
  import opened Wrappers
  import opened Ascii

  /** One header line: `data` is "<key>: <value>", `keylen` is the length of <key>. */
  datatype Header = Header(data: string, keylen: nat) {

    /** The ": " separator sits right after the key. */
    predicate WellFormed() {
      keylen + 2 <= |data| && data[keylen] == ':' && data[keylen + 1] == ' '
    }

    function Key(): string
      requires keylen <= |data|
    {
      data[..keylen]
    }

    /** What follows the key and the ": " separator (nothing, on a line too short to hold one). */
    function Value(): string {
      if keylen + 2 <= |data| then data[keylen + 2..] else ""
    }
  }

  /** The entry built by _http_header_new: slicing it at keylen and keylen + 2 gives back key and value. */
  function NewHeader(key: string, value: string): (h: Header)
    ensures h.WellFormed() && h.keylen == |key|
    ensures h.Key() == key && h.Value() == value
    ensures |h.data| == |key| + 2 + |value|
  {
    Header(key + ": " + value, |key|)
  }

  predicate AllWellFormed(es: seq<Header>) {
    forall i | 0 <= i < |es| :: es[i].WellFormed()
  }

  /** The key test of the find loops: same key length, then ASCII case-insensitive comparison. */
  predicate Matches(h: Header, key: string) {
    h.keylen == |key| && h.keylen <= |h.data| && CaseEqual(h.data[..h.keylen], key)
  }

  /** Two entries whose keys agree up to ASCII case. */
  predicate SameKey(a: Header, b: Header) {
    a.keylen == b.keylen && a.keylen <= |a.data| && b.keylen <= |b.data|
    && CaseEqual(a.data[..a.keylen], b.data[..b.keylen])
  }

  lemma SameKeyMatches(a: Header, b: Header, key: string)
    requires SameKey(a, b)
    ensures Matches(a, key) <==> Matches(b, key)
  {
    var ka, kb := a.data[..a.keylen], b.data[..b.keylen];
    if Matches(a, key) {
      CaseEqualSymmetric(ka, kb);
      CaseEqualTransitive(kb, ka, key);
    }
    if Matches(b, key) {
      CaseEqualTransitive(ka, kb, key);
    }
  }

  /** An entry that matches `key` has the same key as any other entry that matches it. */
  lemma MatchesSameKey(a: Header, b: Header, key: string)
    requires Matches(a, key) && Matches(b, key)
    ensures SameKey(a, b)
  {
    CaseEqualSymmetric(b.data[..b.keylen], key);
    CaseEqualTransitive(a.data[..a.keylen], key, b.data[..b.keylen]);
  }

  /** The lowest matching index at or after `from`: what a forward scan from `from` stops at. */
  function NextMatch(es: seq<Header>, key: string, from: nat): (r: Option<nat>)
    ensures r.Some? ==> from <= r.value < |es| && Matches(es[r.value], key)
    ensures r.Some? ==> forall j | from <= j < r.value :: !Matches(es[j], key)
    ensures r.None? ==> forall j | from <= j < |es| :: !Matches(es[j], key)
    decreases |es| - from
  {
    if from >= |es| then None
    else if Matches(es[from], key) then Some(from)
    else NextMatch(es, key, from + 1)
  }

  /** The highest matching index below `n`: what a backward scan from position `n` stops at. */
  function LastMatchBefore(es: seq<Header>, key: string, n: nat): (r: Option<nat>)
    requires n <= |es|
    ensures r.Some? ==> r.value < n && Matches(es[r.value], key)
    ensures r.Some? ==> forall j | r.value < j < n :: !Matches(es[j], key)
    ensures r.None? ==> forall j | 0 <= j < n :: !Matches(es[j], key)
  {
    if n == 0 then None
    else if Matches(es[n - 1], key) then Some(n - 1)
    else LastMatchBefore(es, key, n - 1)
  }

  /** The most recently inserted occurrence of `key`, if any ("last one wins"). */
  function LastMatch(es: seq<Header>, key: string): Option<nat> {
    LastMatchBefore(es, key, |es|)
  }

  /** The cursors visited by find_first followed by repeated find_next, from position `from`. */
  function Occurrences(es: seq<Header>, key: string, from: nat): seq<nat>
    decreases |es| - from
  {
    match NextMatch(es, key, from)
    case None => []
    case Some(i) => [i] + Occurrences(es, key, i + 1)
  }

  /** Some occurrence of `key` has a value equal to `val` up to ASCII case (http_header_is). */
  predicate AnyValueIs(es: seq<Header>, key: string, val: string)
  {
    exists i | 0 <= i < |es| :: Matches(es[i], key) && CaseEqual(es[i].Value(), val)
  }

  /** Every occurrence of `key` has a value equal to `val` up to ASCII case. */
  predicate AllValuesAre(es: seq<Header>, key: string, val: string)
  {
    forall i | 0 <= i < |es| :: Matches(es[i], key) ==> CaseEqual(es[i].Value(), val)
  }

  /** The values of the occurrences of `key`, in arrival order. */
  function Values(es: seq<Header>, key: string): seq<string>
  {
    if es == [] then []
    else
      var init := Values(es[..|es| - 1], key);
      if Matches(es[|es| - 1], key) then init + [es[|es| - 1].Value()] else init
  }

  /** The store with every occurrence of `key` taken out and everything else kept in order. */
  function Without(es: seq<Header>, key: string): (r: seq<Header>)
    ensures |r| <= |es|
  {
    if es == [] then []
    else
      var init := Without(es[..|es| - 1], key);
      if Matches(es[|es| - 1], key) then init else init + [es[|es| - 1]]
  }

  /**
   * The text get_fast leaves in its destination buffer after appending `vs`
   * one by one: ", " goes before a value only when the buffer is not empty.
   */
  function Join(vs: seq<string>): string {
    if vs == [] then ""
    else
      var acc := Join(vs[..|vs| - 1]);
      if |acc| > 0 then acc + ", " + vs[|vs| - 1] else vs[|vs| - 1]
  }

  /** A comma-separated list "v1, v2, ..., vn": how section 3.2.2 of RFC 7230 combines repeated fields. */
  function CommaList(vs: seq<string>): string {
    if |vs| == 0 then ""
    else if |vs| == 1 then vs[0]
    else vs[0] + ", " + CommaList(vs[1..])
  }

  /**
   * The store after http_header_append: with no occurrence of `key` a new
   * tail entry; otherwise ", " + value grows the line of the last occurrence.
   */
  function Appended(es: seq<Header>, key: string, value: string): seq<Header> {
    match LastMatch(es, key)
    case None => es + [NewHeader(key, value)]
    case Some(i) => es[i := Header(es[i].data + ", " + value, es[i].keylen)]
  }

  /**
   * The store after http_header_overwrite: with no occurrence of `key` a new
   * tail entry; otherwise the line of the last occurrence is rebuilt from
   * key and value, and earlier occurrences stay.
   */
  function Overwritten(es: seq<Header>, key: string, value: string): seq<Header> {
    match LastMatch(es, key)
    case None => es + [NewHeader(key, value)]
    case Some(i) => es[i := NewHeader(key, value)]
  }

  // ---------------------------------------------------------------------------
  // Lemmas: enumeration order

  /** find_first then find_next visit exactly the matching entries, each once, in increasing order. */
  lemma {:induction false} OccurrencesAreMatches(es: seq<Header>, key: string, from: nat)
    ensures var occ := Occurrences(es, key, from);
      (forall x :: x in occ <==> from <= x < |es| && Matches(es[x], key))
      && (forall a, b | 0 <= a < b < |occ| :: occ[a] < occ[b])
    decreases |es| - from
  {
    match NextMatch(es, key, from)
    case None =>
    case Some(i) =>
      OccurrencesAreMatches(es, key, i + 1);
      var rest := Occurrences(es, key, i + 1);
      assert Occurrences(es, key, from) == [i] + rest;
      forall b | 0 < b < |[i] + rest| ensures i < ([i] + rest)[b] {
        assert rest[b - 1] in rest;
      }
  }

  /** A forward scan over es + [h] finds what it finds in es, or else the new tail entry. */
  lemma NextMatchSnoc(es: seq<Header>, h: Header, key: string, from: nat)
    requires from <= |es|
    ensures NextMatch(es + [h], key, from) ==
      (if NextMatch(es, key, from).Some? then NextMatch(es, key, from)
       else if Matches(h, key) then Some(|es|) else None)
    decreases |es| - from
  {
    if from < |es| {
      assert (es + [h])[from] == es[from];
      if !Matches(es[from], key) {
        NextMatchSnoc(es, h, key, from + 1);
      }
    }
  }

  /** Inserting at the tail adds the new position at the end of the enumeration, if it matches. */
  lemma {:induction false} OccurrencesSnoc(es: seq<Header>, h: Header, key: string, from: nat)
    requires from <= |es|
    ensures Occurrences(es + [h], key, from) ==
      Occurrences(es, key, from) + (if Matches(h, key) then [|es|] else [])
    decreases |es| - from
  {
    NextMatchSnoc(es, h, key, from);
    match NextMatch(es, key, from)
    case None =>
      if Matches(h, key) {
        assert NextMatch(es + [h], key, |es| + 1) == None;
      }
    case Some(i) =>
      OccurrencesSnoc(es, h, key, i + 1);
  }

  /** After inserting an entry for `key` at the tail, the last occurrence of `key` is that entry. */
  lemma LastMatchSnoc(es: seq<Header>, h: Header, key: string)
    requires Matches(h, key)
    ensures LastMatch(es + [h], key) == Some(|es|)
  {
  }

  /** Replacing an entry by one with the same key moves no forward scan... */
  lemma {:induction false} ReplaceSameKeyNextMatch(es: seq<Header>, i: nat, h: Header, key: string, from: nat)
    requires i < |es| && SameKey(es[i], h)
    ensures NextMatch(es[i := h], key, from) == NextMatch(es, key, from)
    decreases |es| - from
  {
    SameKeyMatches(es[i], h, key);
    if from < |es| {
      ReplaceSameKeyNextMatch(es, i, h, key, from + 1);
    }
  }

  /** ... leaves every key's enumeration as it was... */
  lemma {:induction false} ReplaceSameKeyOccurrences(es: seq<Header>, i: nat, h: Header, key: string, from: nat)
    requires i < |es| && SameKey(es[i], h)
    ensures Occurrences(es[i := h], key, from) == Occurrences(es, key, from)
    decreases |es| - from
  {
    ReplaceSameKeyNextMatch(es, i, h, key, from);
    match NextMatch(es, key, from)
    case None =>
    case Some(j) =>
      ReplaceSameKeyOccurrences(es, i, h, key, j + 1);
  }

  /** ... and every key's last occurrence as it was. */
  lemma {:induction false} ReplaceSameKeyLastMatch(es: seq<Header>, i: nat, h: Header, key: string, n: nat)
    requires i < |es| && SameKey(es[i], h) && n <= |es|
    ensures LastMatchBefore(es[i := h], key, n) == LastMatchBefore(es, key, n)
  {
    SameKeyMatches(es[i], h, key);
    if n > 0 {
      ReplaceSameKeyLastMatch(es, i, h, key, n - 1);
    }
  }

  /** A freshly built entry matches its own key. */
  lemma NewHeaderMatches(key: string, value: string)
    ensures Matches(NewHeader(key, value), key)
  {
    CaseEqualReflexive(key);
  }

  /** Overwriting keeps the last occurrence where it was, so lookup now finds the new line. */
  lemma OverwriteLastWins(es: seq<Header>, key: string, value: string)
    ensures var r := Overwritten(es, key, value);
      && LastMatch(r, key).Some?
      && r[LastMatch(r, key).value] == NewHeader(key, value)
      && r[LastMatch(r, key).value].Value() == value
      && LastMatch(r, key).value == (if LastMatch(es, key).Some? then LastMatch(es, key).value else |es|)
  {
    var h := NewHeader(key, value);
    NewHeaderMatches(key, value);
    match LastMatch(es, key)
    case None =>
      LastMatchSnoc(es, h, key);
    case Some(i) =>
      MatchesSameKey(es[i], h, key);
      ReplaceSameKeyLastMatch(es, i, h, key, |es|);
  }

  /**
   * Overwriting an existing key moves no occurrence of any key: find_first
   * and find_next visit the same positions as before, earlier duplicates of
   * `key` included.  Without an occurrence it is an insert at the tail.
   */
  lemma OverwriteOccurrences(es: seq<Header>, key: string, value: string, other: string)
    ensures LastMatch(es, key).Some? ==>
      Occurrences(Overwritten(es, key, value), other, 0) == Occurrences(es, other, 0)
    ensures LastMatch(es, key).None? ==>
      Occurrences(Overwritten(es, key, value), other, 0)
        == Occurrences(es, other, 0) + (if Matches(NewHeader(key, value), other) then [|es|] else [])
  {
    var h := NewHeader(key, value);
    match LastMatch(es, key)
    case None =>
      OccurrencesSnoc(es, h, key, 0);
      OccurrencesSnoc(es, h, other, 0);
    case Some(i) =>
      NewHeaderMatches(key, value);
      MatchesSameKey(es[i], h, key);
      ReplaceSameKeyOccurrences(es, i, h, other, 0);
  }

  /** Appending keeps the last occurrence where it was, and its value grows by ", " + value. */
  lemma AppendLastWins(es: seq<Header>, key: string, value: string)
    requires AllWellFormed(es)
    ensures var r := Appended(es, key, value);
      && LastMatch(r, key).Some?
      && AllWellFormed(r)
      && r[LastMatch(r, key).value].Value()
         == (match LastMatch(es, key)
             case None => value
             case Some(i) => es[i].Value() + ", " + value)
  {
    match LastMatch(es, key)
    case None =>
      NewHeaderMatches(key, value);
      LastMatchSnoc(es, NewHeader(key, value), key);
    case Some(i) =>
      var h := Header(es[i].data + ", " + value, es[i].keylen);
      assert h.data[..h.keylen] == es[i].data[..es[i].keylen];
      CaseEqualReflexive(h.data[..h.keylen]);
      ReplaceSameKeyLastMatch(es, i, h, key, |es|);
      assert h.data[h.keylen + 2..] == es[i].Value() + ", " + value;
  }

  /** The values of `key` are those before its last occurrence, then the last one's. */
  lemma ValuesAtLast(es: seq<Header>, key: string, i: nat)
    requires LastMatch(es, key) == Some(i)
    ensures Values(es, key) == Values(es[..i], key) + [es[i].Value()]
  {
    ValuesSkip(es, key, i + 1, |es|);
    assert es[..|es|] == es;
    ValuesStep(es, key, i);
  }

  /**
   * Folding a repeated field onto the last line (append) gives get_fast the
   * same combined value as keeping it as a line of its own (insert), which
   * is what section 3.2.2 of RFC 7230 asks of combining repeated fields.
   * The one exception is a key whose combined value so far is empty: append
   * then leaves a leading ", " that get_fast would not write.
   */
  lemma AppendFoldsLikeInsert(es: seq<Header>, key: string, value: string)
    requires AllWellFormed(es)
    requires LastMatch(es, key).Some? ==> Join(Values(es, key)) != ""
    ensures Join(Values(Appended(es, key, value), key)) == Join(Values(es + [NewHeader(key, value)], key))
  {
    var h := NewHeader(key, value);
    NewHeaderMatches(key, value);
    assert (es + [h])[..|es|] == es;
    assert Values(es + [h], key) == Values(es, key) + [value];
    match LastMatch(es, key)
    case None =>
    case Some(i) =>
      AppendedValues(es, key, value, i);
      JoinFold(Values(es[..i], key), es[i].Value(), value);
  }

  /** The values after appending to the last occurrence at i: the last one has grown. */
  lemma AppendedValues(es: seq<Header>, key: string, value: string, i: nat)
    requires AllWellFormed(es) && LastMatch(es, key) == Some(i)
    ensures Values(es, key) == Values(es[..i], key) + [es[i].Value()]
    ensures Values(Appended(es, key, value), key) == Values(es[..i], key) + [es[i].Value() + ", " + value]
  {
    var h' := Header(es[i].data + ", " + value, es[i].keylen);
    var r := es[i := h'];
    assert h'.data[..h'.keylen] == es[i].data[..es[i].keylen];
    CaseEqualReflexive(h'.data[..h'.keylen]);
    ReplaceSameKeyLastMatch(es, i, h', key, |es|);
    ValuesAtLast(r, key, i);
    ValuesAtLast(es, key, i);
    assert r[..i] == es[..i];
    assert h'.data[h'.keylen + 2..] == es[i].Value() + ", " + value;
  }

  /** Growing the last value by ", " + v joins like adding v, once the joined text is not empty. */
  lemma JoinFold(init: seq<string>, x: string, v: string)
    requires Join(init + [x]) != ""
    ensures Join(init + [x + ", " + v]) == Join(init + [x] + [v])
  {
    JoinSnoc(init, x + ", " + v);
    JoinSnoc(init + [x], v);
    JoinSnoc(init, x);
  }

  // ---------------------------------------------------------------------------
  // Lemmas: values

  /** No occurrence of `key` before position n carries `val` up to ASCII case. */
  predicate NoValueBefore(es: seq<Header>, key: string, val: string, n: nat) {
    forall j | 0 <= j < n && j < |es| :: !(Matches(es[j], key) && CaseEqual(es[j].Value(), val))
  }

  /** One round of http_header_is: the next occurrence `c` does not carry `val`. */
  lemma IsStep(es: seq<Header>, key: string, val: string, from: nat, c: nat)
    requires NextMatch(es, key, from) == Some(c) && NoValueBefore(es, key, val, from)
    requires !CaseEqual(es[c].Value(), val)
    ensures NoValueBefore(es, key, val, c + 1)
  {
    forall j | 0 <= j < c + 1 && j < |es|
      ensures !(Matches(es[j], key) && CaseEqual(es[j].Value(), val))
    {
      if from <= j < c {
        assert !Matches(es[j], key);
      }
    }
  }

  /** The scan of http_header_is ran out of occurrences: no value matched. */
  lemma IsEnd(es: seq<Header>, key: string, val: string, from: nat)
    requires NextMatch(es, key, from).None? && NoValueBefore(es, key, val, from)
    ensures !AnyValueIs(es, key, val)
  {
    forall j | 0 <= j < |es|
      ensures !(Matches(es[j], key) && CaseEqual(es[j].Value(), val))
    {
      if from <= j {
        assert !Matches(es[j], key);
      }
    }
  }

  /** Join adds one value: behind ", " after a non-empty text, on its own otherwise. */
  lemma JoinSnoc(vs: seq<string>, v: string)
    ensures Join(vs + [v]) == if |Join(vs)| > 0 then Join(vs) + ", " + v else v
  {
    assert (vs + [v])[..|vs|] == vs;
  }

  /**
   * One round of get_fast: with `acc` the text of the occurrences before
   * `from` and `c` the next one, the text up to and including `c`.
   */
  lemma GetFastStep(es: seq<Header>, key: string, from: nat, c: nat, acc: string)
    requires from <= |es|
    requires NextMatch(es, key, from) == Some(c)
    requires acc == Join(Values(es[..from], key))
    ensures Join(Values(es[..c + 1], key)) == (if |acc| > 0 then acc + ", " else acc) + es[c].Value()
  {
    ValuesSkip(es, key, from, c);
    ValuesStep(es, key, c);
    JoinSnoc(Values(es[..c], key), es[c].Value());
    if |acc| == 0 {
      assert acc + es[c].Value() == es[c].Value();
    }
  }

  /** The scan of get_fast ran out of occurrences: the text so far holds all of them. */
  lemma GetFastEnd(es: seq<Header>, key: string, from: nat)
    requires from <= |es| && NextMatch(es, key, from).None?
    ensures Values(es[..from], key) == Values(es, key)
  {
    ValuesSkip(es, key, from, |es|);
    assert es[..|es|] == es;
  }

  /** A stretch without occurrences of `key` contributes no values. */
  lemma {:induction false} ValuesSkip(es: seq<Header>, key: string, a: nat, b: nat)
    requires a <= b <= |es|
    requires forall j | a <= j < b :: !Matches(es[j], key)
    ensures Values(es[..b], key) == Values(es[..a], key)
    decreases b
  {
    if a < b {
      assert es[..b][..b - 1] == es[..b - 1];
      ValuesSkip(es, key, a, b - 1);
    }
  }

  /** An occurrence of `key` at position c contributes its value after those before it. */
  lemma ValuesStep(es: seq<Header>, key: string, c: nat)
    requires c < |es| && Matches(es[c], key)
    ensures Values(es[..c + 1], key) == Values(es[..c], key) + [es[c].Value()]
  {
    assert es[..c + 1][..c] == es[..c];
  }

  // ---------------------------------------------------------------------------
  // Lemmas: removal

  /** What is kept is exactly what was there and does not match `key`. */
  lemma {:induction false} WithoutMembers(es: seq<Header>, key: string)
    ensures forall h :: h in Without(es, key) <==> h in es && !Matches(h, key)
    decreases |es|
  {
    if es != [] {
      WithoutMembers(es[..|es| - 1], key);
      assert es == es[..|es| - 1] + [es[|es| - 1]];
    }
  }

  lemma {:induction false} WithoutConcat(a: seq<Header>, b: seq<Header>, key: string)
    ensures Without(a + b, key) == Without(a, key) + Without(b, key)
    decreases |b|
  {
    if b == [] {
      assert a + b == a;
    } else {
      var b' := b[..|b| - 1];
      assert (a + b)[..|a + b| - 1] == a + b';
      WithoutConcat(a, b', key);
    }
  }

  lemma {:induction false} WithoutNoMatch(es: seq<Header>, key: string)
    requires NoMatch(es, key)
    ensures Without(es, key) == es
    decreases |es|
  {
    if es != [] {
      WithoutNoMatch(es[..|es| - 1], key);
      assert es == es[..|es| - 1] + [es[|es| - 1]];
    }
  }

  /** Nothing in the result matches `key`. */
  lemma WithoutHasNoMatch(es: seq<Header>, key: string)
    ensures forall j | 0 <= j < |Without(es, key)| :: !Matches(Without(es, key)[j], key)
  {
    var r := Without(es, key);
    WithoutMembers(es, key);
    forall j | 0 <= j < |r| ensures !Matches(r[j], key) {
      assert r[j] in r;
    }
  }

  /** The store gets shorter exactly when some entry matched. */
  lemma {:induction false} WithoutShrinks(es: seq<Header>, key: string)
    ensures |Without(es, key)| < |es| <==> exists j | 0 <= j < |es| :: Matches(es[j], key)
    decreases |es|
  {
    if es != [] {
      var init := es[..|es| - 1];
      WithoutShrinks(init, key);
      if exists j | 0 <= j < |init| :: Matches(init[j], key) {
        var j :| 0 <= j < |init| && Matches(init[j], key);
        assert es[j] == init[j];
      }
      if exists j | 0 <= j < |es| :: Matches(es[j], key) {
        var j :| 0 <= j < |es| && Matches(es[j], key);
        if j < |es| - 1 {
          assert init[j] == es[j];
        }
      }
    }
  }

  /** Removing twice removes nothing the second time. */
  lemma RemoveIdempotent(es: seq<Header>, key: string)
    ensures Without(Without(es, key), key) == Without(es, key)
    ensures !exists j | 0 <= j < |Without(es, key)| :: Matches(Without(es, key)[j], key)
  {
    WithoutHasNoMatch(es, key);
    WithoutNoMatch(Without(es, key), key);
  }

  /** Every entry kept is well formed when every entry was. */
  lemma WithoutWellFormed(es: seq<Header>, key: string)
    requires AllWellFormed(es)
    ensures AllWellFormed(Without(es, key))
  {
    var r := Without(es, key);
    WithoutMembers(es, key);
    forall j | 0 <= j < |r| ensures r[j].WellFormed() {
      assert r[j] in r;
    }
  }

  /** Removing one key leaves the values of every other key exactly as they were, in order. */
  lemma {:induction false} WithoutKeepsOtherValues(es: seq<Header>, key: string, other: string)
    requires !CaseEqual(key, other)
    ensures Values(Without(es, key), other) == Values(es, other)
    decreases |es|
  {
    var r := Without(es, key);
    if es != [] {
      var init := es[..|es| - 1];
      var last := es[|es| - 1];
      WithoutKeepsOtherValues(init, key, other);
      if !Matches(last, key) {
        var wi := Without(init, key);
        assert r == wi + [last];
        assert (wi + [last])[..|wi + [last]| - 1] == wi;
      }
    }
  }

  /** A store W + E[g..] with |W| == p has E's tail from position g on, shifted to position p. */
  lemma ShiftedTail(W: seq<Header>, E: seq<Header>, g: nat, a: nat, b: nat)
    requires g <= |E| && a <= b <= |E| - g
    ensures (W + E[g..])[|W| + a..|W| + b] == E[g + a..g + b]
  {
  }

  /**
   * The state of remove's scan: the entry E[g] of the original store E is
   * pending, at cursor p of the current store cur; before it, every
   * occurrence of `key` is gone, and from it on nothing has been touched.
   */
  ghost predicate Pending(E: seq<Header>, key: string, g: nat, cur: seq<Header>, p: nat) {
    g < |E| && Matches(E[g], key) && p == |Without(E[..g], key)| && cur == Without(E[..g], key) + E[g..]
  }

  /** The first occurrence found becomes the pending one. */
  lemma RemoveFirst(E: seq<Header>, key: string, c: nat)
    requires NextMatch(E, key, 0) == Some(c)
    ensures Pending(E, key, c, E, c)
  {
    WithoutNoMatch(E[..c], key);
    assert E == E[..c] + E[c..];
  }

  /** Index arithmetic of one removal round, for any element type. */
  lemma ShiftFacts<T>(W: seq<T>, E: seq<T>, g: nat, cur: seq<T>, c: nat, g': nat)
    requires g < |E| && cur == W + E[g..] && |W| < c < |cur| && g' == g + c - |W|
    ensures g' < |E| && E[g'] == cur[c]
    ensures E[g + 1..g'] == cur[|W| + 1..c]
    ensures cur[..|W|] + cur[|W| + 1..] == (W + E[g + 1..g']) + E[g'..]
  {
    var p := |W|;
    assert cur[p + 1..] == E[g + 1..];
    assert E[g + 1..] == E[g + 1..g'] + E[g'..];
  }

  predicate NoMatch(s: seq<Header>, key: string) {
    forall j | 0 <= j < |s| :: !Matches(s[j], key)
  }

  /** Between a cursor and the next match found after it, nothing matches. */
  lemma NextMatchGap(cur: seq<Header>, key: string, from: nat, c: nat)
    requires NextMatch(cur, key, from) == Some(c)
    ensures NoMatch(cur[from..c], key)
  {
    assert forall j | 0 <= j < c - from :: cur[from..c][j] == cur[from + j];
  }

  /** One round of the deferred-deletion loop of remove: drop the pending entry, the next one becomes pending. */
  lemma RemoveRound(E: seq<Header>, key: string, g: nat, cur: seq<Header>, p: nat, c: nat, g': nat)
    requires Pending(E, key, g, cur, p) && NextMatch(cur, key, p + 1) == Some(c)
    requires g' == g + c - p
    ensures p < c < |cur|
    ensures Pending(E, key, g', cur[..p] + cur[p + 1..], c - 1)
  {
    var W := Without(E[..g], key);
    ShiftFacts(W, E, g, cur, c, g');
    var mid := E[g + 1..g'];
    NextMatchGap(cur, key, p + 1, c);
    WithoutNoMatch(mid, key);
    SplitAtMatch(E, key, g, g');
  }

  /** Filtering E[..g'] where E[g] matches and E[g + 1..g'] holds no match. */
  lemma SplitAtMatch(E: seq<Header>, key: string, g: nat, g': nat)
    requires g < g' <= |E| && Matches(E[g], key)
    requires Without(E[g + 1..g'], key) == E[g + 1..g']
    ensures Without(E[..g'], key) == Without(E[..g], key) + E[g + 1..g']
  {
    var mid := E[g + 1..g'];
    assert E[..g'] == (E[..g] + [E[g]]) + mid;
    WithoutConcat(E[..g] + [E[g]], mid, key);
    assert (E[..g] + [E[g]])[..g] == E[..g];
  }

  /** The end of remove: dropping the last pending entry leaves exactly the filtered store. */
  lemma RemoveFinal(E: seq<Header>, key: string, g: nat, cur: seq<Header>, p: nat)
    requires Pending(E, key, g, cur, p) && NextMatch(cur, key, p + 1) == None
    ensures cur[..p] + cur[p + 1..] == Without(E, key)
    ensures exists j | 0 <= j < |E| :: Matches(E[j], key)
  {
    var W := Without(E[..g], key);
    var rest := E[g + 1..];
    ShiftedTail(W, E, g, 1, |E| - g);
    assert cur[p + 1..] == rest;
    forall j | 0 <= j < |rest| ensures !Matches(rest[j], key) {
      assert rest[j] == cur[p + 1 + j];
    }
    WithoutNoMatch(rest, key);
    assert E[g + 1..|E|] == rest;
    SplitAtMatch(E, key, g, |E|);
    assert E[..|E|] == E;
    assert cur[..p] == W;
  }

  // ---------------------------------------------------------------------------
  // Lemmas: joining values

  /** get_fast yields the empty text exactly when every value is empty. */
  lemma {:induction false} JoinEmpty(vs: seq<string>)
    ensures Join(vs) == "" <==> forall i | 0 <= i < |vs| :: vs[i] == ""
    decreases |vs|
  {
    if vs != [] {
      var init := vs[..|vs| - 1];
      JoinEmpty(init);
      if Join(vs) == "" {
        forall i | 0 <= i < |vs| ensures vs[i] == "" {
          if i < |vs| - 1 {
            assert vs[i] == init[i];
          }
        }
      }
    }
  }

  lemma {:induction false} CommaListSnoc(vs: seq<string>, v: string)
    requires |vs| >= 1
    ensures CommaList(vs + [v]) == CommaList(vs) + ", " + v
    decreases |vs|
  {
    if |vs| == 1 {
      assert (vs + [v])[1..] == [v];
    } else {
      assert (vs + [v])[1..] == vs[1..] + [v];
      CommaListSnoc(vs[1..], v);
    }
  }

  lemma {:induction false} CommaListNonEmpty(vs: seq<string>)
    requires |vs| >= 1 && vs[0] != ""
    ensures CommaList(vs) != ""
  {
  }

  /** When no value is empty, get_fast's text is the RFC 7230 comma-separated combination of the values. */
  lemma {:induction false} JoinIsCommaList(vs: seq<string>)
    requires forall i | 0 <= i < |vs| :: vs[i] != ""
    ensures Join(vs) == CommaList(vs)
    decreases |vs|
  {
    if |vs| >= 2 {
      var init := vs[..|vs| - 1];
      JoinIsCommaList(init);
      CommaListNonEmpty(init);
      CommaListSnoc(init, vs[|vs| - 1]);
      assert init + [vs[|vs| - 1]] == vs;
    } else if |vs| == 1 {
      assert vs[..0] == [];
    }
  }
}
