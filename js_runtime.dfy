/**
 * The few JavaScript built-ins the rules layer leans on: truthiness of
 * request fields, String.prototype.trim, toLowerCase, split on one
 * character, Array.prototype.slice with its negative indices, and Math.ceil
 * of a quotient. Strings are sequences of characters (code points), not of
 * UTF-16 code units, and toLowerCase covers ASCII and Latin-1 only.
 */
module JsRuntime {
  import opened Outcomes

  /** A field of a request's body, query string or path: undefined, null or a string. */
  datatype Param = Absent | JsonNull | Str(s: string)

  /** JavaScript truthiness of a request field: only a non-empty string is truthy. */
  predicate Truthy(p: Param) {
    p.Str? && p.s != ""
  }

  /** `p !== undefined` */
  predicate Given(p: Param) {
    !p.Absent?
  }

  // ---------------------------------------------------------------------------
  // White space and trim

  /** White space and line terminators, as String.prototype.trim and the `\s` class see them. */
  predicate IsSpace(c: char) {
    || c == ' ' || c == '\t' || c == '\n' || c == '\r' || c == '\U{000B}' || c == '\U{000C}'
    || c == '\U{00A0}' || c == '\U{1680}' || ('\U{2000}' <= c <= '\U{200A}')
    || c == '\U{2028}' || c == '\U{2029}' || c == '\U{202F}' || c == '\U{205F}'
    || c == '\U{3000}' || c == '\U{FEFF}'
  }

  predicate NoSpace(s: string) {
    forall i :: 0 <= i < |s| ==> !IsSpace(s[i])
  }

  function TrimStart(s: string): (r: string)
    ensures |r| <= |s| && r == s[|s| - |r|..]
    ensures r == [] || !IsSpace(r[0])
    ensures forall k :: 0 <= k < |s| - |r| ==> IsSpace(s[k])
  {
    if s != [] && IsSpace(s[0]) then TrimStart(s[1..]) else s
  }

  function TrimEnd(s: string): (r: string)
    ensures |r| <= |s| && r == s[..|r|]
    ensures r == [] || !IsSpace(r[|r| - 1])
    ensures forall k :: |r| <= k < |s| ==> IsSpace(s[k])
  {
    if s != [] && IsSpace(s[|s| - 1]) then TrimEnd(s[..|s| - 1]) else s
  }

  /**
   * `s.trim()`: what remains is the stretch of `s` between a run of leading
   * and a run of trailing white space, and it neither starts nor ends with
   * white space.
   */
  function Trim(s: string): (r: string)
    ensures var i := |s| - |TrimStart(s)|;
      && i + |r| <= |s| && r == s[i..i + |r|]
      && (forall k :: 0 <= k < i ==> IsSpace(s[k]))
      && (forall k :: i + |r| <= k < |s| ==> IsSpace(s[k]))
    ensures r == [] || (!IsSpace(r[0]) && !IsSpace(r[|r| - 1]))
  {
    TrimEnd(TrimStart(s))
  }

  lemma TrimStartOfTrimmed(s: string)
    requires s == [] || !IsSpace(s[0])
    ensures TrimStart(s) == s
  {
  }

  lemma TrimEndOfTrimmed(s: string)
    requires s == [] || !IsSpace(s[|s| - 1])
    ensures TrimEnd(s) == s
  {
  }

  /** Trimming twice is trimming once. */
  lemma {:induction false} TrimIdempotent(s: string)
    ensures Trim(Trim(s)) == Trim(s)
  {
    var t := Trim(s);
    TrimStartOfTrimmed(t);
    TrimEndOfTrimmed(t);
  }

  // ---------------------------------------------------------------------------
  // toLowerCase

  /** Lower-casing of one character: ASCII and the Latin-1 capitals. */
  function LowerChar(c: char): (d: char)
    ensures IsSpace(c) <==> IsSpace(d)
    ensures c == '@' <==> d == '@'
    ensures c == '.' <==> d == '.'
  {
    if 'A' <= c <= 'Z' || ('\U{00C0}' <= c <= '\U{00DE}' && c != '\U{00D7}')
    then (c as int + 32) as char
    else c
  }

  function ToLower(s: string): (r: string)
    ensures |r| == |s|
    ensures forall i :: 0 <= i < |s| ==> r[i] == LowerChar(s[i])
  {
    seq(|s|, i requires 0 <= i < |s| => LowerChar(s[i]))
  }

  lemma LowerCharIdempotent(c: char)
    ensures LowerChar(LowerChar(c)) == LowerChar(c)
  {
  }

  /** Lower-casing twice is lower-casing once. */
  lemma LowerIdempotent(s: string)
    ensures ToLower(ToLower(s)) == ToLower(s)
  {
    forall k | 0 <= k < |s| ensures ToLower(ToLower(s))[k] == ToLower(s)[k] {
      LowerCharIdempotent(s[k]);
    }
  }

  /** Trimming a string that lower-casing leaves alone gives one that lower-casing leaves alone. */
  lemma TrimKeepsLower(y: string)
    requires ToLower(y) == y
    ensures ToLower(Trim(y)) == Trim(y)
  {
    var t := Trim(y);
    var i := |y| - |TrimStart(y)|;
    forall k | 0 <= k < |t| ensures ToLower(t)[k] == t[k] {
      assert t[k] == y[i + k];
      assert ToLower(y)[i + k] == LowerChar(y[i + k]);
    }
  }


  // ---------------------------------------------------------------------------
  // split(' ') and its inverse join(' ')

  /** `s.split(c)`: the pieces between occurrences of `c`, empty pieces kept. */
  function Split(s: string, c: char): (r: seq<string>)
    ensures |r| >= 1
    ensures forall i :: 0 <= i < |r| ==> c !in r[i]
  {
    if s == [] then [""]
    else if s[0] == c then [""] + Split(s[1..], c)
    else
      var rest := Split(s[1..], c);
      [[s[0]] + rest[0]] + rest[1..]
  }

  /** `parts.join(c)` */
  function Join(parts: seq<string>, c: char): string
    requires |parts| >= 1
  {
    if |parts| == 1 then parts[0] else parts[0] + [c] + Join(parts[1..], c)
  }

  /** Joining the pieces of a split gives back the string. */
  lemma {:induction false} JoinSplit(s: string, c: char)
    ensures Join(Split(s, c), c) == s
  {
    if s == [] {
    } else if s[0] == c {
      JoinSplit(s[1..], c);
      assert Split(s, c)[1..] == Split(s[1..], c);
    } else {
      JoinSplit(s[1..], c);
      var rest := Split(s[1..], c);
      var parts := Split(s, c);
      assert parts[0] == [s[0]] + rest[0];
      if |rest| == 1 {
        assert s == [s[0]] + s[1..];
      } else {
        assert parts[1..] == rest[1..];
        assert Join(rest, c) == rest[0] + [c] + Join(rest[1..], c);
        assert s == [s[0]] + s[1..];
      }
    }
  }

  /** A string with no separator in it splits into itself alone. */
  lemma {:induction false} SplitWithout(s: string, c: char)
    requires c !in s
    ensures Split(s, c) == [s]
  {
    if s != [] {
      SplitWithout(s[1..], c);
      assert s == [s[0]] + s[1..];
    }
  }

  /** Splitting `a + [c] + b` where `a` holds no separator gives `a` and then the pieces of `b`. */
  lemma {:induction false} SplitAt(a: string, b: string, c: char)
    requires c !in a
    ensures Split(a + [c] + b, c) == [a] + Split(b, c)
  {
    if a == [] {
      assert a + [c] + b == [c] + b;
      assert ([c] + b)[1..] == b;
    } else {
      SplitAt(a[1..], b, c);
      var s := a + [c] + b;
      assert s[0] == a[0] && s[0] != c;
      assert s[1..] == a[1..] + [c] + b;
      var rest := Split(s[1..], c);
      assert rest[0] == a[1..] && rest[1..] == Split(b, c);
      assert [s[0]] + rest[0] == a;
    }
  }

  // ---------------------------------------------------------------------------
  // Array.prototype.slice

  /** Where `slice` puts an index: negative ones count from the end, all are clamped into [0, len]. */
  function ClampIndex(i: int, len: nat): (k: nat)
    ensures k <= len
    ensures 0 <= i <= len ==> k == i
    ensures i > len ==> k == len
    ensures i < 0 ==> k == if len + i < 0 then 0 else len + i
  {
    if i < 0 then (if len + i < 0 then 0 else len + i)
    else if i > len then len else i
  }

  /** `s.slice(start, end)` */
  function Slice<T>(s: seq<T>, start: int, end: int): (r: seq<T>)
    ensures |r| <= |s|
    ensures var a, b := ClampIndex(start, |s|), ClampIndex(end, |s|);
      && |r| == (if a < b then b - a else 0)
      && forall k :: 0 <= k < |r| ==> r[k] == s[a + k]
  {
    var a, b := ClampIndex(start, |s|), ClampIndex(end, |s|);
    if a < b then s[a..b] else []
  }

  /** A window holds elements of the sequence only, and from a non-negative offset at most `limit` of them. */
  lemma SliceWindow<T>(s: seq<T>, offset: int, limit: int)
    ensures forall x :: x in Slice(s, offset, offset + limit) ==> x in s
    ensures offset >= 0 && limit >= 0 ==> |Slice(s, offset, offset + limit)| <= limit
  {
    var r := Slice(s, offset, offset + limit);
    forall x | x in r ensures x in s {
      var k :| 0 <= k < |r| && r[k] == x;
      assert r[k] == s[ClampIndex(offset, |s|) + k];
    }
  }

  // ---------------------------------------------------------------------------
  // Math.ceil(a / b)

  /** The ceiling of the quotient `a / b`. */
  function CeilDiv(a: int, b: int): (q: int)
    requires b != 0
    ensures b > 0 ==> (q - 1) * b < a <= q * b
    ensures b < 0 ==> q * b <= a < (q - 1) * b
  {
    if b > 0 then -((-a) / b) else -(a / (-b))
  }

  /** `Math.ceil(total / limit)` as a number, None when the quotient is not finite (division by zero). */
  function CeilQuotient(total: int, limit: int): (r: Option<int>)
    ensures r.None? <==> limit == 0
    ensures limit > 0 && total >= 0 ==> r.Some? && r.value >= 0
  {
    if limit == 0 then None else Some(CeilDiv(total, limit))
  }

  /** The pagination block of a listing; `pages` is absent when `Math.ceil(total / limit)` is not a finite number. */
  datatype Pagination = Pagination(page: int, limit: int, total: nat, pages: Option<int>)

  /** `(page - 1) * limit` */
  function Offset(page: int, limit: int): int {
    (page - 1) * limit
  }

  /**
   * Paging with offset `(page - 1) * limit` covers a listing: row k is row
   * `k % limit` of page `k / limit + 1`, and that page is at most
   * `Math.ceil(total / limit)`.
   */
  lemma PageOfRow<T>(s: seq<T>, limit: int, k: int)
    requires limit > 0 && 0 <= k < |s|
    ensures 1 <= PageOf(k, limit) <= CeilDiv(|s|, limit)
    ensures 0 <= SlotOf(k, limit) < |Slice(s, Offset(PageOf(k, limit), limit), Offset(PageOf(k, limit), limit) + limit)|
    ensures Slice(s, Offset(PageOf(k, limit), limit), Offset(PageOf(k, limit), limit) + limit)[SlotOf(k, limit)] == s[k]
  {
    PageArithmetic(k, limit);
    var off, m := Offset(PageOf(k, limit), limit), SlotOf(k, limit);
    var w := Slice(s, off, off + limit);
    assert ClampIndex(off, |s|) == off;
    assert |w| > m;
    assert w[m] == s[off + m];
    var c := CeilDiv(|s|, limit);
    assert off < c * limit;
    PositiveFactor(PageOf(k, limit) - 1, c, limit);
  }

  /** Row k sits at offset `(page - 1) * limit + slot` with the slot below `limit`. */
  lemma PageArithmetic(k: int, limit: int)
    requires limit > 0 && k >= 0
    ensures Offset(PageOf(k, limit), limit) == (PageOf(k, limit) - 1) * limit
    ensures 0 <= Offset(PageOf(k, limit), limit) <= k
    ensures k == Offset(PageOf(k, limit), limit) + SlotOf(k, limit)
    ensures 0 <= SlotOf(k, limit) < limit && PageOf(k, limit) >= 1
  {
    var q := k / limit;
    assert PageOf(k, limit) - 1 == q;
    NonNegativeProduct(q, limit);
  }

  /** The page row k of a listing falls on: `k / limit + 1`. */
  function PageOf(k: int, limit: int): int
    requires limit > 0
  {
    k / limit + 1
  }

  /** The position of row k on its page: `k % limit`. */
  function SlotOf(k: int, limit: int): int
    requires limit > 0
  {
    k % limit
  }

  lemma NonNegativeProduct(a: int, n: int)
    requires a >= 0 && n > 0
    ensures a * n >= 0
  {
  }

  lemma PositiveFactor(a: int, b: int, n: int)
    requires n > 0 && a * n < b * n
    ensures a < b
  {
  }

  // ---------------------------------------------------------------------------
  // Decimal rendering of a count, as in a template literal `${n}`

  function DigitChar(d: nat): char
    requires d < 10
  {
    "0123456789"[d]
  }

  function Decimal(n: nat): (r: string)
    ensures |r| >= 1
  {
    if n < 10 then [DigitChar(n)] else Decimal(n / 10) + [DigitChar(n % 10)]
  }

  // ---------------------------------------------------------------------------
  // Object.entries of an update object

  /** The keys of an object's entries are distinct. */
  predicate DistinctKeys<V>(entries: seq<(string, V)>) {
    forall i, j :: 0 <= i < j < |entries| ==> entries[i].0 != entries[j].0
  }

  predicate HasKey<V>(entries: seq<(string, V)>, key: string) {
    exists i :: 0 <= i < |entries| && entries[i].0 == key
  }

  /** The entries whose key is in `allowed`, in their order: the `allowedFields.includes(key)` loop. */
  function KeepAllowed<V>(entries: seq<(string, V)>, allowed: seq<string>): (r: seq<(string, V)>)
    ensures |r| <= |entries|
    ensures forall i :: 0 <= i < |r| ==> r[i].0 in allowed
  {
    if entries == [] then []
    else
      var last := entries[|entries| - 1];
      KeepAllowed(entries[..|entries| - 1], allowed) + (if last.0 in allowed then [last] else [])
  }

  /** The filter keeps exactly the entries with an allowed key, and it is empty iff no key is allowed. */
  lemma {:induction false} KeepAllowedExact<V>(entries: seq<(string, V)>, allowed: seq<string>)
    ensures forall u :: u in KeepAllowed(entries, allowed) ==> u in entries && u.0 in allowed
    ensures forall u :: u in entries && u.0 in allowed ==> u in KeepAllowed(entries, allowed)
    ensures KeepAllowed(entries, allowed) == [] <==> forall i :: 0 <= i < |entries| ==> entries[i].0 !in allowed
  {
    if entries != [] {
      var init := entries[..|entries| - 1];
      KeepAllowedExact(init, allowed);
      assert entries == init + [entries[|entries| - 1]];
      if KeepAllowed(entries, allowed) == [] {
        forall i | 0 <= i < |entries| ensures entries[i].0 !in allowed {
          if i < |init| {
            assert init[i] == entries[i];
          }
        }
      }
    }
  }

  /** The loop over the update's entries that collects those whose key is allowed. */
  method CollectAllowed<V>(entries: seq<(string, V)>, allowed: seq<string>) returns (fields: seq<(string, V)>)
    ensures fields == KeepAllowed(entries, allowed)
  {
    fields := [];
    var i := 0;
    while i < |entries|
      invariant 0 <= i <= |entries|
      invariant fields == KeepAllowed(entries[..i], allowed)
    {
      assert entries[..i + 1][..i] == entries[..i];
      if entries[i].0 in allowed {
        fields := fields + [entries[i]];
      }
      i := i + 1;
    }
    assert entries[..i] == entries;
  }

  /** When every key is allowed, the filter keeps everything. */
  lemma {:induction false} KeepAllowedAll<V>(entries: seq<(string, V)>, allowed: seq<string>)
    requires forall i :: 0 <= i < |entries| ==> entries[i].0 in allowed
    ensures KeepAllowed(entries, allowed) == entries
  {
    if entries != [] {
      KeepAllowedAll(entries[..|entries| - 1], allowed);
      assert entries == entries[..|entries| - 1] + [entries[|entries| - 1]];
    }
  }

  /** A sub-sequence of entries with distinct keys has distinct keys. */
  lemma {:induction false} KeepAllowedDistinct<V>(entries: seq<(string, V)>, allowed: seq<string>)
    requires DistinctKeys(entries)
    ensures DistinctKeys(KeepAllowed(entries, allowed))
  {
    if entries != [] {
      var init := entries[..|entries| - 1];
      var last := entries[|entries| - 1];
      KeepAllowedDistinct(init, allowed);
      KeepAllowedExact(init, allowed);
      var ki := KeepAllowed(init, allowed);
      forall i | 0 <= i < |ki| ensures ki[i].0 != last.0 {
        assert ki[i] in init;
        var j :| 0 <= j < |init| && init[j] == ki[i];
        assert entries[j] == init[j];
      }
    }
  }

  /** The value of the last entry with that key: what a `SET key = ...` list leaves in the column. */
  function LastValue<V>(entries: seq<(string, V)>, key: string): (r: Option<V>)
    ensures r.None? <==> !HasKey(entries, key)
    ensures r.Some? ==> exists i :: 0 <= i < |entries| && entries[i] == (key, r.value)
  {
    if entries == [] then None
    else if entries[|entries| - 1].0 == key then Some(entries[|entries| - 1].1)
    else
      var init := entries[..|entries| - 1];
      var r := LastValue(init, key);
      assert r.Some? ==> exists i :: 0 <= i < |entries| && entries[i] == (key, r.value) by {
        if r.Some? {
          var i :| 0 <= i < |init| && init[i] == (key, r.value);
          assert entries[i] == init[i];
        }
      }
      assert HasKey(init, key) ==> HasKey(entries, key) by {
        if HasKey(init, key) {
          var i :| 0 <= i < |init| && init[i].0 == key;
          assert entries[i].0 == key;
        }
      }
      assert HasKey(entries, key) ==> HasKey(init, key) by {
        if HasKey(entries, key) {
          var i :| 0 <= i < |entries| && entries[i].0 == key;
          assert i < |init| && init[i].0 == key;
        }
      }
      r
  }

  /** `if (cond) obj[key] = value` on an object that does not hold the key yet: the entry goes last. */
  function SetIf<V>(obj: seq<(string, V)>, cond: bool, key: string, value: V): seq<(string, V)> {
    if cond then obj + [(key, value)] else obj
  }

  /** After a conditional assignment the key holds the value exactly when the condition held; keys stay distinct. */
  lemma SetIfShape<V>(obj: seq<(string, V)>, cond: bool, key: string, value: V)
    requires DistinctKeys(obj) && !HasKey(obj, key)
    ensures |SetIf(obj, cond, key, value)| == |obj| + if cond then 1 else 0
    ensures DistinctKeys(SetIf(obj, cond, key, value))
    ensures LastValue(SetIf(obj, cond, key, value), key) == if cond then Some(value) else None
    ensures forall i :: 0 <= i < |SetIf(obj, cond, key, value)| ==>
      SetIf(obj, cond, key, value)[i].0 == key || SetIf(obj, cond, key, value)[i] in obj
  {
    if cond {
      LastValueSnoc(obj, (key, value), key);
    }
  }

  /**
   * One `if (cond) obj[key] = value` in a chain of them, on an object whose
   * keys all come from `earlier`: the keys stay distinct and come from
   * `earlier` and `key`, `key` holds the value exactly when the condition
   * held, and no other key's value changes.
   */
  lemma SetIfStep<V>(obj: seq<(string, V)>, cond: bool, key: string, value: V, earlier: set<string>)
    requires DistinctKeys(obj) && key !in earlier
    requires forall i :: 0 <= i < |obj| ==> obj[i].0 in earlier
    ensures DistinctKeys(SetIf(obj, cond, key, value))
    ensures forall i :: 0 <= i < |SetIf(obj, cond, key, value)| ==> SetIf(obj, cond, key, value)[i].0 in earlier + {key}
    ensures LastValue(SetIf(obj, cond, key, value), key) == if cond then Some(value) else None
    ensures forall k :: k != key ==> LastValue(SetIf(obj, cond, key, value), k) == LastValue(obj, k)
  {
    assert !HasKey(obj, key);
    SetIfShape(obj, cond, key, value);
    if cond {
      forall k | k != key ensures LastValue(SetIf(obj, cond, key, value), k) == LastValue(obj, k) {
        LastValueSnoc(obj, (key, value), k);
      }
    }
  }

  /** A chain of `if (cond) obj[key] = value` statements, in order, on an empty object. */
  function Assigned<V>(steps: seq<(bool, string, V)>): seq<(string, V)> {
    if steps == [] then []
    else
      var last := steps[|steps| - 1];
      SetIf(Assigned(steps[..|steps| - 1]), last.0, last.1, last.2)
  }

  /** The statements of a chain assign pairwise different keys. */
  predicate DistinctSteps<V>(steps: seq<(bool, string, V)>) {
    forall i, j :: 0 <= i < j < |steps| ==> steps[i].1 != steps[j].1
  }

  /** The entry is the assignment of a statement of the chain whose condition held. */
  ghost predicate FromStep<V>(steps: seq<(bool, string, V)>, e: (string, V)) {
    exists j :: 0 <= j < |steps| && steps[j].0 && e == (steps[j].1, steps[j].2)
  }

  /** Every entry after a chain comes from a statement whose condition held. */
  lemma {:induction false} AssignedFrom<V>(steps: seq<(bool, string, V)>)
    ensures forall i :: 0 <= i < |Assigned(steps)| ==> FromStep(steps, Assigned(steps)[i])
  {
    if steps != [] {
      var init := steps[..|steps| - 1];
      var obj := Assigned(init);
      var last := steps[|steps| - 1];
      AssignedFrom(init);
      assert Assigned(steps) == SetIf(obj, last.0, last.1, last.2);
      forall i | 0 <= i < |Assigned(steps)| ensures FromStep(steps, Assigned(steps)[i]) {
        if i < |obj| {
          assert Assigned(steps)[i] == obj[i];
          assert FromStep(init, obj[i]);
          var j :| 0 <= j < |init| && init[j].0 && obj[i] == (init[j].1, init[j].2);
          assert steps[j] == init[j];
        } else {
          assert last.0 && Assigned(steps)[i] == (last.1, last.2);
        }
      }
    }
  }

  /**
   * After a chain over different keys the object names each key at most
   * once, and a key holds its statement's value exactly when that
   * statement's condition held.
   */
  lemma {:induction false} AssignedShape<V>(steps: seq<(bool, string, V)>)
    requires DistinctSteps(steps)
    ensures DistinctKeys(Assigned(steps))
    ensures forall j :: 0 <= j < |steps| ==>
      LastValue(Assigned(steps), steps[j].1) == if steps[j].0 then Some(steps[j].2) else None
  {
    if steps != [] {
      var init := steps[..|steps| - 1];
      var last := steps[|steps| - 1];
      var obj := Assigned(init);
      assert Assigned(steps) == SetIf(obj, last.0, last.1, last.2);
      assert DistinctSteps(init) by {
        forall i, j | 0 <= i < j < |init| ensures init[i].1 != init[j].1 {
          assert init[i] == steps[i] && init[j] == steps[j];
        }
      }
      AssignedShape(init);
      AssignedFrom(init);
      assert !HasKey(obj, last.1) by {
        forall i | 0 <= i < |obj| ensures obj[i].0 != last.1 {
          var j :| 0 <= j < |init| && init[j].0 && obj[i] == (init[j].1, init[j].2);
          assert steps[j] == init[j];
        }
      }
      SetIfShape(obj, last.0, last.1, last.2);
      forall j | 0 <= j < |steps|
        ensures LastValue(Assigned(steps), steps[j].1) == if steps[j].0 then Some(steps[j].2) else None
      {
        if j < |init| {
          assert steps[j] == init[j];
          SetIfOther(obj, last.0, last.1, last.2, steps[j].1);
        } else {
          assert steps[j] == last;
        }
      }
    }
  }

  /** `const { p = d } = body`: the default replaces only an undefined field. */
  function Defaulted(p: Param, d: string): (r: Param)
    ensures r != Absent
    ensures p.Absent? ==> r == Str(d)
    ensures !p.Absent? ==> r == p
  {
    if p.Absent? then Str(d) else p
  }

  /** A conditional assignment leaves the last value under every other key as it was. */
  lemma SetIfOther<V>(obj: seq<(string, V)>, cond: bool, key: string, value: V, other: string)
    requires other != key
    ensures LastValue(SetIf(obj, cond, key, value), other) == LastValue(obj, other)
  {
    if cond {
      LastValueSnoc(obj, (key, value), other);
    }
  }

  /** Appending an entry makes it the last value of its key and changes no other key's. */
  lemma LastValueSnoc<V>(entries: seq<(string, V)>, e: (string, V), key: string)
    ensures LastValue(entries + [e], key) == if e.0 == key then Some(e.1) else LastValue(entries, key)
  {
    assert (entries + [e])[..|entries|] == entries;
  }

  /** With distinct keys, the last value under a key is the value of its one entry. */
  lemma {:induction false} LastValueOfEntry<V>(entries: seq<(string, V)>, i: nat)
    requires DistinctKeys(entries) && i < |entries|
    ensures LastValue(entries, entries[i].0) == Some(entries[i].1)
  {
    if i < |entries| - 1 {
      LastValueOfEntry(entries[..|entries| - 1], i);
    }
  }
}
