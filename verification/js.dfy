/**
 * The few JavaScript value semantics the handlers rely on: optional request
 * fields, truthiness, the `||` fallback, `String.prototype.startsWith` and
 * `String.prototype.split` with a one-character separator.
 */
module Js {

  /** A request-body field that may be missing (`undefined`/`null`) or present. */
  datatype Option<+T> = None | Some(value: T)

  /** Truthiness of an optional string: `undefined`, `null` and `""` are falsy. */
  predicate Truthy(v: Option<string>) {
    v.Some? && v.value != ""
  }

  /** Truthiness of an optional numeric id: a missing id and `0` are falsy. */
  predicate TruthyId(v: Option<nat>) {
    v.Some? && v.value != 0
  }

  /** `v || fallback`: the new value when it is truthy, the fallback otherwise. */
  function Or(v: Option<string>, fallback: string): (r: string)
    ensures Truthy(v) ==> r == v.value
    ensures !Truthy(v) ==> r == fallback
  {
    if Truthy(v) then v.value else fallback
  }

  /** Falling back twice to the same value is falling back once: re-sending an update changes nothing. */
  lemma OrAbsorbs(v: Option<string>, fallback: string)
    ensures Or(v, Or(v, fallback)) == Or(v, fallback)
  {
  }

  /** The result of `v || fallback` is non-empty exactly when `v` is truthy or the fallback is non-empty. */
  lemma OrTruthy(v: Option<string>, fallback: string)
    ensures Or(v, fallback) != "" <==> Truthy(v) || fallback != ""
  {
  }

  /**
   * A scalar field of a request body as Prisma sees it: a missing key is
   * `undefined` (skipped by an update), `null` clears the column.
   */
  datatype Field = Undefined | Null | Text(text: string)

  /** The column value a create stores for a field. */
  function Stored(f: Field): (r: Option<string>)
    ensures r.Some? <==> f.Text?
    ensures r.Some? ==> r.value == f.text
  {
    match f
    case Text(s) => Some(s)
    case _ => None
  }

  /** The column value after an update with `f`: `undefined` leaves it alone. */
  function Patch(current: Option<string>, f: Field): (r: Option<string>)
    ensures f.Undefined? ==> r == current
    ensures !f.Undefined? ==> r == Stored(f)
  {
    if f.Undefined? then current else Stored(f)
  }

  /** Patching twice with the same field is patching once. */
  lemma PatchIdempotent(current: Option<string>, f: Field)
    ensures Patch(Patch(current, f), f) == Patch(current, f)
  {
  }

  /** `s.startsWith(p)`: exact, case-sensitive prefix test. */
  function StartsWith(s: string, p: string): (b: bool)
    ensures b ==> |p| <= |s| && s == p + s[|p|..]
  {
    |p| <= |s| && s[..|p|] == p
  }

  /** Every string that extends `p` starts with it; with `StartsWith`'s ensures, `b` holds exactly for `p + t`. */
  lemma StartsWithAppend(p: string, t: string)
    ensures StartsWith(p + t, p)
  {
    assert (p + t)[..|p|] == p;
  }

  /** The text of `s` up to (not including) the first `sep`, or all of `s`. */
  function TakeUntil(s: string, sep: char): (r: string)
    ensures r <= s
    ensures sep !in r
    ensures |r| < |s| ==> s[|r|] == sep
  {
    if |s| == 0 || s[0] == sep then "" else [s[0]] + TakeUntil(s[1..], sep)
  }

  /**
   * `s.split(sep)` for a one-character separator: the pieces between
   * consecutive separators, so adjacent separators yield empty pieces and
   * the result always has at least one element.
   */
  function Split(s: string, sep: char): (r: seq<string>)
    ensures |r| >= 1
    ensures forall i :: 0 <= i < |r| ==> sep !in r[i]
    decreases |s|
  {
    if |s| == 0 then [""]
    else
      var rest := Split(s[1..], sep);
      if s[0] == sep then [""] + rest
      else [[s[0]] + rest[0]] + rest[1..]
  }

  /** `parts.join(sep)`, the inverse of `Split`. */
  function Join(parts: seq<string>, sep: char): (r: string)
    requires |parts| >= 1
    decreases |parts|
  {
    if |parts| == 1 then parts[0] else parts[0] + [sep] + Join(parts[1..], sep)
  }

  /** Joining the pieces of a split gives back the original string. */
  lemma {:induction false} JoinSplit(s: string, sep: char)
    ensures Join(Split(s, sep), sep) == s
    decreases |s|
  {
    if |s| > 0 {
      var rest := Split(s[1..], sep);
      JoinSplit(s[1..], sep);
      if s[0] == sep {
        assert Split(s, sep) == [""] + rest;
        assert ([""] + rest)[1..] == rest;
        assert s == [s[0]] + s[1..];
      } else {
        var parts := [[s[0]] + rest[0]] + rest[1..];
        assert Split(s, sep) == parts;
        if |rest| == 1 {
          assert s == [s[0]] + s[1..];
        } else {
          assert parts[1..] == rest[1..];
          assert Join(rest, sep) == rest[0] + [sep] + Join(rest[1..], sep);
          assert s == [s[0]] + s[1..];
        }
      }
    }
  }

  /** Splitting a string whose head holds no separator extends the first piece. */
  lemma {:induction false} SplitPrefix(a: string, t: string, sep: char)
    requires sep !in a
    ensures Split(a + t, sep) == [a + Split(t, sep)[0]] + Split(t, sep)[1..]
    decreases |a|
  {
    if |a| > 0 {
      var pieces := Split(t, sep);
      assert (a + t)[0] == a[0] && (a + t)[1..] == a[1..] + t;
      SplitPrefix(a[1..], t, sep);
      var rest := Split(a[1..] + t, sep);
      assert rest == [a[1..] + pieces[0]] + pieces[1..];
      assert Split(a + t, sep) == [[a[0]] + rest[0]] + rest[1..];
      assert [a[0]] + (a[1..] + pieces[0]) == a + pieces[0];
      assert rest[1..] == pieces[1..];
    } else {
      var pieces := Split(t, sep);
      assert a + t == t && a + pieces[0] == pieces[0];
      assert pieces == [pieces[0]] + pieces[1..];
    }
  }

  /** Splitting joined pieces that hold no separator gives back the pieces. */
  lemma {:induction false} SplitJoin(parts: seq<string>, sep: char)
    requires |parts| >= 1
    requires forall i :: 0 <= i < |parts| ==> sep !in parts[i]
    ensures Split(Join(parts, sep), sep) == parts
    decreases |parts|
  {
    if |parts| == 1 {
      assert Join(parts, sep) == parts[0] + "";
      SplitPrefix(parts[0], "", sep);
    } else {
      var tail := Join(parts[1..], sep);
      SplitJoin(parts[1..], sep);
      assert Join(parts, sep) == parts[0] + ([sep] + tail);
      SplitPrefix(parts[0], [sep] + tail, sep);
      assert ([sep] + tail)[1..] == tail;
      var pieces := Split([sep] + tail, sep);
      assert pieces == [""] + parts[1..];
      assert pieces[0] == "" && pieces[1..] == parts[1..];
      assert parts[0] + pieces[0] == parts[0];
      assert parts == [parts[0]] + parts[1..];
    }
  }

  /** The first piece of a split is the text up to the first separator. */
  lemma {:induction false} SplitHead(s: string, sep: char)
    ensures Split(s, sep)[0] == TakeUntil(s, sep)
    decreases |s|
  {
    if |s| > 0 && s[0] != sep {
      SplitHead(s[1..], sep);
    }
  }
}
