/** Composite index keys: how column values are written to bytes, and what comparing keys means. */
module IndexKeys {
  import opened Bytes
  import opened Options

  const MAX_KEY_SIZE: nat := 256
  const MAX_COLUMNS: nat := 8
  const WHOLE_VALUE: nat := 255

  /** A column value; None is NULL. */
  type Value = Option<seq<byte>>

  /** What is kept of a value: at most `prefix` bytes, 255 when the prefix is not positive. */
  function Limit(prefix: int): nat {
    if prefix <= 0 then WHOLE_VALUE else prefix
  }

  function Kept(v: Value, prefix: int): Value {
    if v.None? || |v.value| <= Limit(prefix) then v else Some(v.value[..Limit(prefix)])
  }

  function KeptAll(vs: seq<Value>, prefixes: seq<int>): (r: seq<Value>)
    requires |vs| == |prefixes|
    ensures |r| == |vs|
  {
    seq(|vs|, i requires 0 <= i < |vs| => Kept(vs[i], prefixes[i]))
  }

  // ----- The encoding -------------------------------------------------------------

  /** One value: 0 for NULL; else 1, the length, the bytes. */
  function Encoded(v: Value): seq<byte> {
    if v.None? then [0] else [1, |v.value| % 256] + v.value
  }

  function KeyBytes(vs: seq<Value>): seq<byte> {
    if vs == [] then [] else KeyBytes(vs[..|vs| - 1]) + Encoded(vs[|vs| - 1])
  }

  /** A value is accepted behind `offset` bytes if marker, length and bytes leave one byte free. */
  predicate Accepts(offset: nat, v: Value) {
    v.Some? ==> offset + 1 + |v.value| + 2 <= MAX_KEY_SIZE
  }

  /** Every value is accepted where it comes to stand. */
  predicate Fits(vs: seq<Value>) {
    vs == [] || (Fits(vs[..|vs| - 1]) && Accepts(|KeyBytes(vs[..|vs| - 1])|, vs[|vs| - 1]))
  }

  /** No accepted value is longer than its length byte can say. */
  lemma {:induction false} FitsIsShort(vs: seq<Value>)
    requires Fits(vs)
    ensures Short(vs)
  {
    if vs != [] {
      var init, last := vs[..|vs| - 1], vs[|vs| - 1];
      FitsIsShort(init);
      AcceptedIsShort(|KeyBytes(init)|, last);
      ShortOneMore(init, last);
      assert vs == init + [last];
    }
  }

  lemma AcceptedIsShort(offset: nat, v: Value)
    requires Accepts(offset, v)
    ensures v.Some? ==> |v.value| <= WHOLE_VALUE
  {
  }

  lemma ShortOneMore(vs: seq<Value>, v: Value)
    requires Short(vs) && (v.Some? ==> |v.value| <= WHOLE_VALUE)
    ensures Short(vs + [v])
  {
  }

  predicate Short(vs: seq<Value>) {
    forall i | 0 <= i < |vs| :: vs[i].Some? ==> |vs[i].value| <= WHOLE_VALUE
  }

  /** How long a key can get: NULL markers are written without a check, so each column after the first
      may go one byte past what the check allows for values. */
  lemma {:induction false} KeyLength(vs: seq<Value>)
    requires Fits(vs) && vs != []
    ensures |KeyBytes(vs)| <= MAX_KEY_SIZE - 2 + |vs|
  {
    if |vs| > 1 {
      KeyLength(vs[..|vs| - 1]);
    }
  }

  /** A value of 253 bytes, then NULLs. */
  function Longest(n: nat): seq<Value>
    requires n > 0
  {
    if n == 1 then [Some(seq(253, _ => 1))] else Longest(n - 1) + [None]
  }

  /** That length is reached for every number of columns. */
  lemma {:induction false} LongestKey(n: nat)
    requires n > 0
    ensures |Longest(n)| == n && Fits(Longest(n)) && |KeyBytes(Longest(n))| == MAX_KEY_SIZE - 2 + n
  {
    if n == 1 {
      assert Longest(1)[..0] == [];
    } else {
      LongestKey(n - 1);
      assert Longest(n)[..n - 1] == Longest(n - 1);
    }
  }

  lemma {:induction false} NotFits(vs: seq<Value>, i: nat)
    requires i < |vs| && !Accepts(|KeyBytes(vs[..i])|, vs[i])
    ensures !Fits(vs)
    decreases |vs|
  {
    var init := vs[..|vs| - 1];
    if i < |init| {
      assert init[..i] == vs[..i];
      NotFits(init, i);
    }
  }

  /** One more column. */
  lemma KeyStep(vs: seq<Value>, i: nat)
    requires i < |vs| && Fits(vs[..i])
    ensures KeyBytes(vs[..i + 1]) == KeyBytes(vs[..i]) + Encoded(vs[i])
    ensures Fits(vs[..i + 1]) <==> Accepts(|KeyBytes(vs[..i])|, vs[i])
    ensures !Accepts(|KeyBytes(vs[..i])|, vs[i]) ==> !Fits(vs)
    ensures |KeyBytes(vs[..i])| < MAX_KEY_SIZE - 2 + |vs|
  {
    assert vs[..i + 1][..i] == vs[..i];
    if i > 0 {
      KeyLength(vs[..i]);
    }
    if !Accepts(|KeyBytes(vs[..i])|, vs[i]) {
      NotFits(vs, i);
    }
  }

  // ----- What is written, also by refused calls -----------------------------------------

  datatype Write = Write(at: nat, bytes: seq<byte>)

  /** The marker is written before the check, so a refused value leaves its marker. */
  function ColumnWrite(offset: nat, v: Value): (w: Write)
    ensures w.at == offset && w.bytes != []
  {
    Write(offset, if Accepts(offset, v) then Encoded(v) else [1])
  }

  /** The writes of a call, in order; columns behind a refused one are not visited. */
  function Writes(vs: seq<Value>): seq<Write> {
    if vs == [] then []
    else
      var init := vs[..|vs| - 1];
      if Fits(init) then Writes(init) + [ColumnWrite(|KeyBytes(init)|, vs[|vs| - 1])] else Writes(init)
  }

  predicate Within(writes: seq<Write>, size: nat) {
    forall w <- writes :: w.at + |w.bytes| <= size
  }

  function Splice(b: seq<byte>, w: Write): (r: seq<byte>)
    requires w.at + |w.bytes| <= |b|
    ensures |r| == |b|
  {
    b[..w.at] + w.bytes + b[w.at + |w.bytes|..]
  }

  function Applied(b: seq<byte>, writes: seq<Write>): (r: seq<byte>)
    requires Within(writes, |b|)
    ensures |r| == |b|
  {
    if writes == [] then b else Splice(Applied(b, writes[..|writes| - 1]), writes[|writes| - 1])
  }

  lemma AppliedStep(b: seq<byte>, writes: seq<Write>, w: Write)
    requires Within(writes + [w], |b|)
    ensures Within(writes, |b|) && w.at + |w.bytes| <= |b|
    ensures Applied(b, writes + [w]) == Splice(Applied(b, writes), w)
  {
    assert (writes + [w])[..|writes|] == writes;
    assert w in writes + [w] && forall x :: x in writes ==> x in writes + [w];
  }

  lemma SpliceAtEnd(b: seq<byte>, w: Write, key: seq<byte>)
    requires w.at + |w.bytes| <= |b| && w.at == |key| && b[..w.at] == key
    ensures Splice(b, w)[..w.at + |w.bytes|] == key + w.bytes
  {
  }

  /** After all writes of an accepted call the buffer begins with the key. */
  lemma {:induction false} AppliedIsKey(b: seq<byte>, vs: seq<Value>)
    requires Fits(vs) && Within(Writes(vs), |b|)
    ensures |KeyBytes(vs)| <= |b| && Applied(b, Writes(vs))[..|KeyBytes(vs)|] == KeyBytes(vs)
  {
    if vs != [] {
      var init := vs[..|vs| - 1];
      var w := ColumnWrite(|KeyBytes(init)|, vs[|vs| - 1]);
      AppliedStep(b, Writes(init), w);
      AppliedIsKey(b, init);
      SpliceAtEnd(Applied(b, Writes(init)), w, KeyBytes(init));
    }
  }

  lemma {:induction false} NotVisited(vs: seq<Value>, i: nat)
    requires i <= |vs| && !Fits(vs[..i])
    ensures Writes(vs) == Writes(vs[..i]) && !Fits(vs)
    decreases |vs|
  {
    if i < |vs| {
      var init := vs[..|vs| - 1];
      assert init[..i] == vs[..i];
      NotVisited(init, i);
    } else {
      assert vs[..i] == vs;
    }
  }

  /** The writes up to column i are the first ones of the call. */
  lemma {:induction false} WritesGrow(vs: seq<Value>, i: nat)
    requires i <= |vs|
    ensures Writes(vs[..i]) <= Writes(vs)
    decreases |vs|
  {
    if i == |vs| {
      assert vs[..i] == vs;
    } else {
      var init := vs[..|vs| - 1];
      assert init[..i] == vs[..i];
      WritesGrow(init, i);
    }
  }

  /** The write of column i. */
  lemma ColumnIsWritten(vs: seq<Value>, i: nat)
    requires i < |vs| && Fits(vs[..i])
    ensures Writes(vs[..i + 1]) == Writes(vs[..i]) + [ColumnWrite(|KeyBytes(vs[..i])|, vs[i])]
    ensures ColumnWrite(|KeyBytes(vs[..i])|, vs[i]) in Writes(vs)
  {
    assert vs[..i + 1][..i] == vs[..i];
    WritesGrow(vs, i + 1);
    assert Writes(vs)[|Writes(vs[..i])|] == ColumnWrite(|KeyBytes(vs[..i])|, vs[i]);
  }

  /** Column i is visited, and its marker is written at its start. */
  predicate StartsWithin(vs: seq<Value>, i: nat)
    requires i < |vs|
  {
    Fits(vs[..i]) ==> |KeyBytes(vs[..i])| < MAX_KEY_SIZE
  }

  lemma WithinOneMore(writes: seq<Write>, w: Write, size: nat)
    ensures Within(writes + [w], size) <==> Within(writes, size) && w.at + |w.bytes| <= size
  {
    assert w in writes + [w] && forall x :: x in writes ==> x in writes + [w];
    assert forall x :: x in writes + [w] ==> x in writes || x == w;
  }

  lemma ColumnWriteFits(offset: nat, v: Value)
    ensures offset + |ColumnWrite(offset, v).bytes| <= MAX_KEY_SIZE <==> offset < MAX_KEY_SIZE
  {
  }

  /** The columns of a row start where those of its beginning do. */
  lemma SameStart(vs: seq<Value>, i: nat)
    requires i + 1 < |vs|
    ensures StartsWithin(vs[..|vs| - 1], i) <==> StartsWithin(vs, i)
  {
    assert vs[..|vs| - 1][..i] == vs[..i];
  }

  predicate AllStartWithin(vs: seq<Value>) {
    forall i: nat | i < |vs| :: StartsWithin(vs, i)
  }

  lemma StartsOfInit(vs: seq<Value>)
    requires vs != [] && AllStartWithin(vs)
    ensures AllStartWithin(vs[..|vs| - 1])
  {
    var init := vs[..|vs| - 1];
    forall i: nat | i < |init| ensures StartsWithin(init, i) {
      SameStart(vs, i);
    }
  }

  lemma StartsOfWhole(vs: seq<Value>)
    requires vs != [] && AllStartWithin(vs[..|vs| - 1]) && StartsWithin(vs, |vs| - 1)
    ensures AllStartWithin(vs)
  {
    forall i: nat | i < |vs| ensures StartsWithin(vs, i) {
      if i < |vs| - 1 {
        SameStart(vs, i);
      }
    }
  }

  lemma WritesSplit(vs: seq<Value>)
    requires vs != []
    ensures var init := vs[..|vs| - 1];
      Within(Writes(vs), MAX_KEY_SIZE) <==> Within(Writes(init), MAX_KEY_SIZE) && StartsWithin(vs, |init|)
  {
    var init, last := vs[..|vs| - 1], vs[|vs| - 1];
    WithinOneMore(Writes(init), ColumnWrite(|KeyBytes(init)|, last), MAX_KEY_SIZE);
    ColumnWriteFits(|KeyBytes(init)|, last);
  }

  /** Every write of a call, refused or not, stays in the 256 bytes exactly when every visited column
      starts in them. */
  lemma {:induction false} WritesStayIff(vs: seq<Value>)
    ensures Within(Writes(vs), MAX_KEY_SIZE) <==> AllStartWithin(vs)
  {
    if vs != [] {
      WritesStayIff(vs[..|vs| - 1]);
      WritesSplit(vs);
      if AllStartWithin(vs) {
        StartsOfInit(vs);
      } else if AllStartWithin(vs[..|vs| - 1]) && StartsWithin(vs, |vs| - 1) {
        StartsOfWhole(vs);
      }
    }
  }

  /** How far the columns with these prefixes can go: values that end one byte before the last one they
      may use, and NULL where not even an empty value is accepted. */
  function Furthest(prefixes: seq<int>): nat {
    if prefixes == [] then 0
    else Beyond(Furthest(prefixes[..|prefixes| - 1]), Limit(prefixes[|prefixes| - 1]))
  }

  function Beyond(offset: nat, limit: nat): nat {
    if offset + 3 > MAX_KEY_SIZE then offset + 1
    else if offset + 3 + limit <= MAX_KEY_SIZE then offset + 2 + limit else MAX_KEY_SIZE - 1
  }

  lemma {:induction false} NoneGoesFurther(vs: seq<Value>, prefixes: seq<int>)
    requires |vs| == |prefixes| && Fits(KeptAll(vs, prefixes))
    ensures |KeyBytes(KeptAll(vs, prefixes))| <= Furthest(prefixes)
    decreases |vs|
  {
    if vs != [] {
      var n := |vs| - 1;
      assert KeptAll(vs, prefixes)[..n] == KeptAll(vs[..n], prefixes[..n]);
      NoneGoesFurther(vs[..n], prefixes[..n]);
    }
  }

  /** The value that goes as far from `offset` on. */
  function FarValue(offset: nat, limit: nat): Value {
    if offset + 3 > MAX_KEY_SIZE then None
    else Some(seq(if offset + 3 + limit <= MAX_KEY_SIZE then limit else MAX_KEY_SIZE - 3 - offset, _ => 1))
  }

  /** A row that goes as far. */
  function FarRow(prefixes: seq<int>): (r: seq<Value>)
    ensures |r| == |prefixes|
  {
    if prefixes == [] then []
    else
      var init := prefixes[..|prefixes| - 1];
      FarRow(init) + [FarValue(Furthest(init), Limit(prefixes[|prefixes| - 1]))]
  }

  lemma {:induction false} FarRowIsKept(prefixes: seq<int>)
    ensures KeptAll(FarRow(prefixes), prefixes) == FarRow(prefixes)
    decreases |prefixes|
  {
    if prefixes != [] {
      var n := |prefixes| - 1;
      FarRowIsKept(prefixes[..n]);
      forall i | 0 <= i < |prefixes| ensures KeptAll(FarRow(prefixes), prefixes)[i] == FarRow(prefixes)[i] {
        assert i < n ==> KeptAll(FarRow(prefixes[..n]), prefixes[..n])[i] == FarRow(prefixes[..n])[i];
      }
    }
  }

  lemma FarColumn(vs: seq<Value>, limit: nat)
    requires Fits(vs)
    ensures var row := vs + [FarValue(|KeyBytes(vs)|, limit)];
      Fits(row) && |KeyBytes(row)| == Beyond(|KeyBytes(vs)|, limit)
  {
    var v := FarValue(|KeyBytes(vs)|, limit);
    assert (vs + [v])[..|vs|] == vs && (vs + [v])[|vs|] == v;
    assert |Encoded(v)| == Beyond(|KeyBytes(vs)|, limit) - |KeyBytes(vs)|;
  }

  lemma {:induction false} FarRowGoesFurthest(prefixes: seq<int>)
    ensures Fits(FarRow(prefixes)) && |KeyBytes(FarRow(prefixes))| == Furthest(prefixes)
    decreases |prefixes|
  {
    if prefixes != [] {
      var init := prefixes[..|prefixes| - 1];
      FarRowGoesFurthest(init);
      FarColumn(FarRow(init), Limit(prefixes[|init|]));
    }
  }

  /** All calls on an index with these prefixes write only the first 256 bytes. */
  ghost predicate AlwaysStays(prefixes: seq<int>) {
    forall vs: seq<Value> | |vs| == |prefixes| :: Within(Writes(KeptAll(vs, prefixes)), MAX_KEY_SIZE)
  }

  lemma {:induction false} FurthestGrows(prefixes: seq<int>, i: nat)
    requires i < |prefixes|
    ensures Furthest(prefixes[..i]) < Furthest(prefixes)
    decreases |prefixes|
  {
    var init := prefixes[..|prefixes| - 1];
    if i < |init| {
      assert init[..i] == prefixes[..i];
      FurthestGrows(init, i);
    }
  }

  lemma ColumnStartsWithin(vs: seq<Value>, prefixes: seq<int>, i: nat)
    requires i < |vs| == |prefixes| && Furthest(prefixes[..|prefixes| - 1]) < MAX_KEY_SIZE
    ensures StartsWithin(KeptAll(vs, prefixes), i)
  {
    var init := prefixes[..|prefixes| - 1];
    assert KeptAll(vs, prefixes)[..i] == KeptAll(vs[..i], prefixes[..i]);
    if Fits(KeptAll(vs[..i], prefixes[..i])) {
      NoneGoesFurther(vs[..i], prefixes[..i]);
      if i < |init| {
        assert init[..i] == prefixes[..i];
        FurthestGrows(init, i);
      }
    }
  }

  lemma RowsStay(vs: seq<Value>, prefixes: seq<int>)
    requires |vs| == |prefixes| > 0 && Furthest(prefixes[..|prefixes| - 1]) < MAX_KEY_SIZE
    ensures Within(Writes(KeptAll(vs, prefixes)), MAX_KEY_SIZE)
  {
    forall i: nat | i < |vs| ensures StartsWithin(KeptAll(vs, prefixes), i) {
      ColumnStartsWithin(vs, prefixes, i);
    }
    WritesStayIff(KeptAll(vs, prefixes));
  }

  /** For an index with given prefixes: no values ever make a call write past the 256 bytes exactly when
      the columns before the last one cannot fill them. */
  lemma AlwaysStaysIff(prefixes: seq<int>)
    requires prefixes != []
    ensures AlwaysStays(prefixes) <==> Furthest(prefixes[..|prefixes| - 1]) < MAX_KEY_SIZE
  {
    var n := |prefixes| - 1;
    if Furthest(prefixes[..n]) < MAX_KEY_SIZE {
      forall vs: seq<Value> | |vs| == |prefixes| ensures Within(Writes(KeptAll(vs, prefixes)), MAX_KEY_SIZE) {
        RowsStay(vs, prefixes);
      }
    } else {
      var vs := FarRow(prefixes);
      FarRowIsKept(prefixes);
      FarRowGoesFurthest(prefixes[..n]);
      assert vs[..n] == FarRow(prefixes[..n]);
      WritesStayIff(vs);
      assert !StartsWithin(vs, n);
      assert !Within(Writes(KeptAll(vs, prefixes)), MAX_KEY_SIZE);
    }
  }

  lemma FirstColumnGoes(prefixes: seq<int>)
    requires prefixes != []
    ensures Furthest(prefixes[..1]) ==
      if Limit(prefixes[0]) + 3 <= MAX_KEY_SIZE then Limit(prefixes[0]) + 2 else MAX_KEY_SIZE - 1
  {
    assert prefixes[..1][..0] == [];
  }

  /** So one or two columns stay with any prefixes; columns that keep at least 253 bytes stay exactly if
      they are at most two. */
  lemma AtMostTwoColumnsStay(prefixes: seq<int>)
    requires prefixes != []
    ensures |prefixes| <= 2 ==> AlwaysStays(prefixes)
    ensures (forall p <- prefixes :: Limit(p) >= MAX_KEY_SIZE - 3) ==> (AlwaysStays(prefixes) <==> |prefixes| <= 2)
  {
    AlwaysStaysIff(prefixes);
    FirstColumnGoes(prefixes);
    if |prefixes| > 2 {
      ThirdColumnGoes(prefixes);
    }
  }

  lemma ThirdColumnGoes(prefixes: seq<int>)
    requires |prefixes| > 2
    ensures Furthest(prefixes[..1]) < Furthest(prefixes[..|prefixes| - 1]) && prefixes[0] in prefixes
  {
    var init := prefixes[..|prefixes| - 1];
    assert init[..1] == prefixes[..1];
    FurthestGrows(init, 1);
  }

  /** A value of 253 bytes, NULL and a third column: its marker goes to place 256, and a call whose third
      value is not NULL is refused after that. */
  lemma RefusedCallWritesPast(s: seq<byte>, v: Value)
    requires |s| == 253
    ensures Write(256, if v.None? then [0] else [1]) in Writes([Some(s), None, v])
    ensures v.Some? ==> !Fits([Some(s), None, v])
  {
    var vs := [Some(s), None, v];
    KeyStep(vs, 0);
    KeyStep(vs, 1);
    assert vs[..0] == [];
    assert |KeyBytes(vs[..2])| == MAX_KEY_SIZE && Fits(vs[..2]);
    KeyStep(vs, 2);
    ColumnIsWritten(vs, 2);
  }

  /** Build the key in the buffer, which must have room for what this call writes. */
  method BuildKey(values: seq<Value>, prefixes: seq<int>, buffer: array<byte>) returns (keyLen: Option<nat>)
    requires |values| == |prefixes| <= MAX_COLUMNS
    requires Within(Writes(KeptAll(values, prefixes)), buffer.Length)
    modifies buffer
    ensures keyLen.Some? <==> Fits(KeptAll(values, prefixes))
    ensures buffer[..] == Applied(old(buffer[..]), Writes(KeptAll(values, prefixes)))
    ensures keyLen.Some? ==>
      keyLen.value <= buffer.Length && buffer[..keyLen.value] == KeyBytes(KeptAll(values, prefixes))
  {
    ghost var kept := KeptAll(values, prefixes);
    var offset := 0;
    for i := 0 to |values|
      invariant Fits(kept[..i]) && offset == |KeyBytes(kept[..i])|
      invariant Within(Writes(kept[..i]), buffer.Length)
      invariant buffer[..] == Applied(old(buffer[..]), Writes(kept[..i]))
    {
      NextColumn(kept, i, old(buffer[..]));
      var next := PutValue(values[i], prefixes[i], buffer, offset);
      if next.None? {
        return None;
      }
      offset := next.value;
    }
    assert kept[..|values|] == kept;
    AppliedIsKey(old(buffer[..]), kept);
    return Some(offset);
  }

  /** What one column adds to the key and to the buffer. */
  lemma NextColumn(vs: seq<Value>, i: nat, b: seq<byte>)
    requires i < |vs| && Fits(vs[..i]) && Within(Writes(vs), |b|)
    ensures var w := ColumnWrite(|KeyBytes(vs[..i])|, vs[i]);
      && Within(Writes(vs[..i]), |b|) && Within(Writes(vs[..i + 1]), |b|) && w.at + |w.bytes| <= |b|
      && Applied(b, Writes(vs[..i + 1])) == Splice(Applied(b, Writes(vs[..i])), w)
      && KeyBytes(vs[..i + 1]) == KeyBytes(vs[..i]) + Encoded(vs[i])
      && (Fits(vs[..i + 1]) <==> Accepts(|KeyBytes(vs[..i])|, vs[i]))
      && (!Fits(vs[..i + 1]) ==> !Fits(vs) && Writes(vs) == Writes(vs[..i + 1]))
  {
    if !Fits(vs[..i + 1]) {
      NotVisited(vs, i + 1);
    }
    KeyStep(vs, i);
    ColumnIsWritten(vs, i);
    WritesGrow(vs, i + 1);
    WritesWithin(vs, i + 1, |b|);
    AppliedStep(b, Writes(vs[..i]), ColumnWrite(|KeyBytes(vs[..i])|, vs[i]));
  }

  lemma WritesWithin(vs: seq<Value>, i: nat, size: nat)
    requires i <= |vs| && Within(Writes(vs), size)
    ensures Within(Writes(vs[..i]), size)
  {
    WritesGrow(vs, i);
    assert forall w :: w in Writes(vs[..i]) ==> w in Writes(vs);
  }

  /** Write one value behind the first `offset` bytes. */
  method PutValue(value: Value, prefix: int, buffer: array<byte>, offset: nat) returns (next: Option<nat>)
    requires offset + |ColumnWrite(offset, Kept(value, prefix)).bytes| <= buffer.Length
    modifies buffer
    ensures next.Some? <==> Accepts(offset, Kept(value, prefix))
    ensures next.Some? ==> next.value == offset + |Encoded(Kept(value, prefix))|
    ensures buffer[..] == Splice(old(buffer[..]), ColumnWrite(offset, Kept(value, prefix)))
  {
    if value.None? {
      buffer[offset] := 0;
      return Some(offset + 1);
    }
    buffer[offset] := 1;
    var at := offset + 1;
    var len := |value.value|;
    var limit := if prefix <= 0 then WHOLE_VALUE else prefix;
    if len > limit {
      len := limit;
    }
    if at + len + 2 > MAX_KEY_SIZE {
      return None;
    }
    buffer[at] := len % 256;
    forall k | 0 <= k < len {
      buffer[at + 1 + k] := value.value[k];
    }
    ghost var e := Encoded(Kept(value, prefix));
    assert forall k | 0 <= k < |e| :: buffer[offset + k] == e[k];
    return Some(at + 1 + len);
  }

  // ----- What the bytes say ----------------------------------------------------------

  lemma Regroup(a: seq<byte>, b: seq<byte>, c: seq<byte>)
    ensures (a + b) + c == a + (b + c)
  {
  }

  /** The first column and the rest. */
  lemma {:induction false} KeyFromFront(vs: seq<Value>)
    requires vs != []
    ensures KeyBytes(vs) == Encoded(vs[0]) + KeyBytes(vs[1..])
    decreases |vs|
  {
    if |vs| == 1 {
      assert vs[..0] == [] && vs[1..] == [];
    } else {
      var init, tail, last := vs[..|vs| - 1], vs[1..], vs[|vs| - 1];
      KeyFromFront(init);
      assert init[1..] == tail[..|tail| - 1] && tail[|tail| - 1] == last && init[0] == vs[0];
      assert KeyBytes(tail) == KeyBytes(init[1..]) + Encoded(last);
      Regroup(Encoded(vs[0]), KeyBytes(init[1..]), Encoded(last));
    }
  }

  /** The sign of comparing byte strings from the front, as memcmp does. */
  function Memcmp(a: seq<byte>, b: seq<byte>): int
    requires |a| == |b|
  {
    if a == [] then 0 else if a[0] < b[0] then -1 else if a[0] > b[0] then 1 else Memcmp(a[1..], b[1..])
  }

  /** Compare the common length; if that is equal, the shorter key is less. */
  function CompareKeys(a: seq<byte>, b: seq<byte>): int {
    var n := if |a| < |b| then |a| else |b|;
    var c := Memcmp(a[..n], b[..n]);
    if c != 0 then c else if |a| < |b| then -1 else if |a| > |b| then 1 else 0
  }

  /** NULL before all values, a shorter value before a longer one, equal lengths byte by byte. */
  function CompareValues(v: Value, w: Value): int {
    if v.None? || w.None? then (if v == w then 0 else if v.None? then -1 else 1)
    else if |v.value| != |w.value| then (if |v.value| < |w.value| then -1 else 1)
    else Memcmp(v.value, w.value)
  }

  /** Column by column, the first difference decides. */
  function CompareRows(vs: seq<Value>, ws: seq<Value>): int
    requires |vs| == |ws|
  {
    if vs == [] then 0
    else
      var c := CompareValues(vs[0], ws[0]);
      if c != 0 then c else CompareRows(vs[1..], ws[1..])
  }

  lemma CompareFromFront(a: seq<byte>, b: seq<byte>)
    ensures CompareKeys(a, b) ==
      if a == [] || b == [] then (if a == b then 0 else if a == [] then -1 else 1)
      else if a[0] < b[0] then -1 else if a[0] > b[0] then 1 else CompareKeys(a[1..], b[1..])
  {
    if a != [] && b != [] {
      var n := if |a| < |b| then |a| else |b|;
      assert a[..n][1..] == a[1..][..n - 1] && b[..n][1..] == b[1..][..n - 1];
    }
  }

  /** Two strings of equal length decide, or else what follows them does. */
  lemma {:induction false} ComparePrefix(p: seq<byte>, q: seq<byte>, a: seq<byte>, b: seq<byte>)
    requires |p| == |q|
    ensures CompareKeys(p + a, q + b) == if Memcmp(p, q) != 0 then Memcmp(p, q) else CompareKeys(a, b)
    decreases |p|
  {
    if p == [] {
      assert p + a == a && q + b == b;
    } else {
      CompareFromFront(p + a, q + b);
      assert (p + a)[1..] == p[1..] + a && (q + b)[1..] == q[1..] + b;
      ComparePrefix(p[1..], q[1..], a, b);
    }
  }

  lemma CompareCons(h: byte, k: byte, a: seq<byte>, b: seq<byte>)
    ensures CompareKeys([h] + a, [k] + b) == if h < k then -1 else if h > k then 1 else CompareKeys(a, b)
  {
    CompareFromFront([h] + a, [k] + b);
  }

  lemma EncodedTail(s: seq<byte>, a: seq<byte>)
    requires |s| <= WHOLE_VALUE
    ensures Encoded(Some(s)) + a == [1] + ([|s|] + (s + a))
  {
  }

  lemma CompareEncoded(v: Value, w: Value, a: seq<byte>, b: seq<byte>)
    requires v.Some? ==> |v.value| <= WHOLE_VALUE
    requires w.Some? ==> |w.value| <= WHOLE_VALUE
    ensures CompareKeys(Encoded(v) + a, Encoded(w) + b) ==
      if CompareValues(v, w) != 0 then CompareValues(v, w) else CompareKeys(a, b)
  {
    if v.None? && w.None? {
      CompareCons(0, 0, a, b);
    } else if v.None? {
      EncodedTail(w.value, b);
      CompareCons(0, 1, a, [|w.value|] + (w.value + b));
    } else if w.None? {
      EncodedTail(v.value, a);
      CompareCons(1, 0, [|v.value|] + (v.value + a), b);
    } else {
      EncodedTail(v.value, a);
      EncodedTail(w.value, b);
      CompareCons(1, 1, [|v.value|] + (v.value + a), [|w.value|] + (w.value + b));
      CompareCons(|v.value|, |w.value|, v.value + a, w.value + b);
      if |v.value| == |w.value| {
        ComparePrefix(v.value, w.value, a, b);
      }
    }
  }

  /** Comparing keys is comparing rows: for every two rows of one index, with NULL first, then length,
      then bytes in every column. */
  lemma {:induction false} KeysCompareAsRows(vs: seq<Value>, ws: seq<Value>)
    requires |vs| == |ws| && Short(vs) && Short(ws)
    ensures CompareKeys(KeyBytes(vs), KeyBytes(ws)) == CompareRows(vs, ws)
    decreases |vs|
  {
    if vs != [] {
      KeyFromFront(vs);
      KeyFromFront(ws);
      CompareEncoded(vs[0], ws[0], KeyBytes(vs[1..]), KeyBytes(ws[1..]));
      KeysCompareAsRows(vs[1..], ws[1..]);
    }
  }

  // ----- The order -------------------------------------------------------------------

  lemma {:induction false} MemcmpIsOrder(a: seq<byte>, b: seq<byte>, c: seq<byte>)
    requires |a| == |b| == |c|
    ensures Memcmp(a, b) == 0 <==> a == b
    ensures Memcmp(b, a) == -Memcmp(a, b) && -1 <= Memcmp(a, b) <= 1
    ensures Memcmp(a, b) <= 0 && Memcmp(b, c) <= 0 ==> Memcmp(a, c) <= 0
    decreases |a|
  {
    if a != [] {
      MemcmpIsOrder(a[1..], b[1..], c[1..]);
      assert a == [a[0]] + a[1..] && b == [b[0]] + b[1..];
    }
  }

  lemma ValuesAreOrdered(u: Value, v: Value, w: Value)
    ensures CompareValues(u, v) == 0 <==> u == v
    ensures CompareValues(v, u) == -CompareValues(u, v)
    ensures CompareValues(u, v) <= 0 && CompareValues(v, w) <= 0 ==> CompareValues(u, w) <= 0
  {
    if u.Some? && v.Some? && |u.value| == |v.value| {
      MemcmpIsOrder(u.value, v.value, if w.Some? && |w.value| == |u.value| then w.value else u.value);
    }
  }

  /** The row order is a total order. */
  lemma {:induction false} RowsAreOrdered(us: seq<Value>, vs: seq<Value>, ws: seq<Value>)
    requires |us| == |vs| == |ws|
    ensures CompareRows(us, vs) == 0 <==> us == vs
    ensures CompareRows(vs, us) == -CompareRows(us, vs)
    ensures CompareRows(us, vs) <= 0 && CompareRows(vs, ws) <= 0 ==> CompareRows(us, ws) <= 0
    decreases |us|
  {
    if us != [] {
      ValuesAreOrdered(us[0], vs[0], ws[0]);
      ValuesAreOrdered(vs[0], ws[0], us[0]);
      ValuesAreOrdered(us[0], ws[0], vs[0]);
      RowsAreOrdered(us[1..], vs[1..], ws[1..]);
      assert us == [us[0]] + us[1..] && vs == [vs[0]] + vs[1..];
    }
  }

  // ----- Main results ----------------------------------------------------------------

  /** Keys of one index are equal exactly when the kept values are. */
  lemma KeysEqualIff(us: seq<Value>, vs: seq<Value>, prefixes: seq<int>)
    requires |us| == |vs| == |prefixes| && Fits(KeptAll(us, prefixes)) && Fits(KeptAll(vs, prefixes))
    ensures KeyBytes(KeptAll(us, prefixes)) == KeyBytes(KeptAll(vs, prefixes))
      <==> KeptAll(us, prefixes) == KeptAll(vs, prefixes)
  {
    var ks, ls := KeptAll(us, prefixes), KeptAll(vs, prefixes);
    FitsIsShort(ks);
    FitsIsShort(ls);
    KeysCompareAsRows(ks, ls);
    RowsAreOrdered(ks, ls, ls);
    if KeyBytes(ks) == KeyBytes(ls) {
      MemcmpIsOrder(KeyBytes(ks), KeyBytes(ls), KeyBytes(ls));
      assert KeyBytes(ks)[..|KeyBytes(ks)|] == KeyBytes(ks);
    }
  }

  /** Two values that an index with this prefix cannot tell apart: both NULL, or both not and equal as far as
      their first `prefix` bytes go, their first 255 where no prefix is given. */
  predicate AgreeUpTo(u: Value, v: Value, prefix: int) {
    var n := if prefix > 0 then prefix else 255;
    || (u.None? && v.None?)
    || (u.Some? && v.Some? && (u.value == v.value
                               || (|u.value| >= n && |v.value| >= n && u.value[..n] == v.value[..n])))
  }

  lemma KeptAgreeIff(u: Value, v: Value, prefix: int)
    ensures Kept(u, prefix) == Kept(v, prefix) <==> AgreeUpTo(u, v, prefix)
  {
    var n := if prefix > 0 then prefix else 255;
    assert u.Some? && |u.value| == n ==> u.value[..n] == u.value;
    assert v.Some? && |v.value| == n ==> v.value[..n] == v.value;
  }

  /** So two rows get the same key exactly if they agree column by column as far as the prefixes go. */
  lemma SameKeyIff(us: seq<Value>, vs: seq<Value>, prefixes: seq<int>)
    requires |us| == |vs| == |prefixes| && Fits(KeptAll(us, prefixes)) && Fits(KeptAll(vs, prefixes))
    ensures KeyBytes(KeptAll(us, prefixes)) == KeyBytes(KeptAll(vs, prefixes))
      <==> forall i: nat | i < |us| :: AgreeUpTo(us[i], vs[i], prefixes[i])
  {
    KeysEqualIff(us, vs, prefixes);
    var ks, ls := KeptAll(us, prefixes), KeptAll(vs, prefixes);
    forall i: nat | i < |us| ensures ks[i] == ls[i] <==> AgreeUpTo(us[i], vs[i], prefixes[i]) {
      KeptAgreeIff(us[i], vs[i], prefixes[i]);
    }
    if forall i: nat | i < |us| :: AgreeUpTo(us[i], vs[i], prefixes[i]) {
      assert ks == ls;
    }
  }

  /** For keys that were built, comparing keys is the order of the kept values. */
  lemma BuiltKeysCompareAsRows(us: seq<Value>, vs: seq<Value>, prefixes: seq<int>)
    requires |us| == |vs| == |prefixes| && Fits(KeptAll(us, prefixes)) && Fits(KeptAll(vs, prefixes))
    ensures CompareKeys(KeyBytes(KeptAll(us, prefixes)), KeyBytes(KeptAll(vs, prefixes)))
      == CompareRows(KeptAll(us, prefixes), KeptAll(vs, prefixes))
  {
    FitsIsShort(KeptAll(us, prefixes));
    FitsIsShort(KeptAll(vs, prefixes));
    KeysCompareAsRows(KeptAll(us, prefixes), KeptAll(vs, prefixes));
  }

  /** Where one encoded value ends can be read off it. */
  lemma EncodedSplits(v: Value, w: Value, a: seq<byte>, b: seq<byte>)
    requires v.Some? ==> |v.value| <= WHOLE_VALUE
    requires w.Some? ==> |w.value| <= WHOLE_VALUE
    requires Encoded(v) + a == Encoded(w) + b
    ensures v == w && a == b
  {
    if v.Some? && w.Some? {
      EncodedTail(v.value, a);
      EncodedTail(w.value, b);
      SplitsAt([1], [1], [|v.value|] + (v.value + a), [|w.value|] + (w.value + b));
      SplitsAt([|v.value|], [|w.value|], v.value + a, w.value + b);
      SplitsAt(v.value, w.value, a, b);
    } else {
      assert (Encoded(v) + a)[0] == Encoded(v)[0] && (Encoded(w) + b)[0] == Encoded(w)[0];
      SplitsAt(Encoded(v), Encoded(w), a, b);
    }
  }

  lemma SplitsAt(p: seq<byte>, q: seq<byte>, a: seq<byte>, b: seq<byte>)
    requires |p| == |q| && p + a == q + b
    ensures p == q && a == b
  {
    assert p == (p + a)[..|p|] && q == (q + b)[..|p|];
    assert a == (p + a)[|p|..] && b == (q + b)[|p|..];
  }

  /** No key is the beginning of another one. */
  lemma {:induction false} NoKeyBeginsAnother(vs: seq<Value>, ws: seq<Value>, rest: seq<byte>)
    requires |vs| == |ws| && Short(vs) && Short(ws) && KeyBytes(ws) == KeyBytes(vs) + rest
    ensures vs == ws && rest == []
    decreases |vs|
  {
    if vs != [] {
      KeyFromFront(vs);
      KeyFromFront(ws);
      Regroup(Encoded(vs[0]), KeyBytes(vs[1..]), rest);
      EncodedSplits(ws[0], vs[0], KeyBytes(ws[1..]), KeyBytes(vs[1..]) + rest);
      NoKeyBeginsAnother(vs[1..], ws[1..], rest);
      assert vs == [vs[0]] + vs[1..] && ws == [ws[0]] + ws[1..];
    }
  }
}
