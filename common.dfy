/** Types shared by every part of the LearnSync backend model: ids, roles,
    handler replies and a few facts about sequences used by the guards. */
module Common {

  datatype Option<+T> = None | Some(value: T)

  /** Autoincrement ids of the database start at 1. */
  type Id = x: int | x >= 1 witness 1

  type UserId = Id
  type GroupId = Id
  type SubjectId = Id
  type RowId = Id
  type SessionId = Id
  type AdmissionId = Id
  type AttendanceId = Id
  type FingerprintId = Id
  /** School ids are generated strings (the `:id` route parameter). */
  type SchoolId = string

  /** Role of a user inside a school (the `Role` enum of the schema). */
  datatype Role = SuperAdmin | Admin | Teacher | Student

  /** Role of a user inside a subject (the `SubjectRole` enum). */
  datatype SubjectRole = SubjectStudent | SubjectTeacher

  /** What a handler sends back: a success status with a body, or an error status with
      the text the handler sends. */
  datatype Reply<+T> = Ok(status: int, value: T) | Fail(status: int, message: string)

  /** A value of a JSON request body, as far as the handlers inspect it. Numbers are
      integers. */
  datatype Json = JNull | JBool(b: bool) | JNum(n: int) | JStr(s: string) | JArray(items: seq<Json>) | JObject

  /** JavaScript truthiness of a body field; `None` is a field the body does not have. */
  predicate Truthy(v: Option<Json>) {
    v.Some? && !(v.value == JNull || v.value == JBool(false) || v.value == JNum(0) || v.value == JStr(""))
  }

  /** The numbers of a body field that passes `Array.isArray(v)` and
      `v.some((id) => typeof id !== "number")` being false. */
  function NumberArray(v: Option<Json>): (r: Option<seq<int>>)
    ensures r.Some? <==> v.Some? && v.value.JArray? && forall k :: 0 <= k < |v.value.items| ==> v.value.items[k].JNum?
    ensures r.Some? ==> |r.value| == |v.value.items| && forall k :: 0 <= k < |r.value| ==> v.value.items[k] == JNum(r.value[k])
  {
    if v.Some? && v.value.JArray? then Numbers(v.value.items) else None
  }

  function Numbers(items: seq<Json>): (r: Option<seq<int>>)
    ensures r.Some? <==> forall k :: 0 <= k < |items| ==> items[k].JNum?
    ensures r.Some? ==> |r.value| == |items| && forall k :: 0 <= k < |r.value| ==> items[k] == JNum(r.value[k])
  {
    if items == [] then Some([])
    else if !items[0].JNum? then None
    else
      var rest := Numbers(items[1..]);
      assert forall k :: 1 <= k < |items| ==> items[k] == items[1..][k - 1];
      if rest.None? then None else Some([items[0].n] + rest.value)
  }

  /** The text of an exception raised by the store (a violated unique or foreign key). */
  const StoreError: string := "Database constraint violated"

  /** Lower-cases ASCII letters and keeps every other character. For the role and status
      words the handlers compare against (student, teacher, admin, accept, reject) this
      decides equality exactly as `toLowerCase` does. */
  function AsciiLower(s: string): (r: string)
    ensures |r| == |s|
    ensures forall i :: 0 <= i < |s| ==> r[i] == (if 'A' <= s[i] <= 'Z' then s[i] - 'A' + 'a' else s[i])
  {
    if s == [] then []
    else [if 'A' <= s[0] <= 'Z' then s[0] - 'A' + 'a' else s[0]] + AsciiLower(s[1..])
  }

  /** The elements of a sequence. */
  function Elems<T(==)>(s: seq<T>): set<T> {
    set x | x in s
  }

  predicate NoDup<T(==)>(s: seq<T>) {
    forall i, j :: 0 <= i < j < |s| ==> s[i] != s[j]
  }

  /** A list has as many distinct elements as entries exactly when it has no repeats. */
  lemma {:induction false} ElemsCard<T>(s: seq<T>)
    ensures |Elems(s)| <= |s|
    ensures |Elems(s)| == |s| <==> NoDup(s)
  {
    if s != [] {
      var t := s[1..];
      ElemsCard(t);
      assert Elems(s) == Elems(t) + {s[0]} by {
        forall x ensures x in Elems(s) <==> x in Elems(t) + {s[0]} {
          if x in s && x != s[0] {
            var i :| 0 <= i < |s| && s[i] == x;
            assert t[i - 1] == x;
          }
        }
      }
      if s[0] in t {
        var j :| 0 <= j < |t| && t[j] == s[0];
        assert s[j + 1] == s[0];
        assert Elems(s) == Elems(t);
        assert !NoDup(s);
      } else {
        assert |Elems(s)| == |Elems(t)| + 1;
        if NoDup(t) {
          forall i, j | 0 <= i < j < |s| ensures s[i] != s[j] {
            if i == 0 {
              assert s[j] == t[j - 1];
            } else {
              assert s[i] == t[i - 1] && s[j] == t[j - 1];
            }
          }
        } else {
          var i, j :| 0 <= i < j < |t| && t[i] == t[j];
          assert s[i + 1] == s[j + 1];
        }
      }
    }
  }

  /** The "found rows == listed ids" guard: the number of listed ids that lie in `found`
      (one store row per distinct id) equals the length of the list exactly when every
      listed id is in `found` and no id is listed twice. */
  lemma CountGuard<T>(ids: seq<T>, found: set<T>)
    ensures |Elems(ids) * found| == |ids| <==> NoDup(ids) && Elems(ids) <= found
  {
    ElemsCard(ids);
    var e := Elems(ids);
    if e <= found {
      assert e * found == e;
    } else {
      var x :| x in e && x !in found;
      SubsetCard(e * found, e - {x});
    }
  }

  /** The listed ids are distinct and all in `found`: what the handlers' row-count
      comparison establishes (`CountGuard`). */
  predicate IdsListed(ids: seq<int>, found: set<int>) {
    NoDup(ids) && Elems(ids) <= found
  }

  lemma {:induction false} SubsetCard<T>(a: set<T>, b: set<T>)
    requires a <= b
    ensures |a| <= |b|
    decreases |b|
  {
    if a != {} {
      var y :| y in a;
      SubsetCard(a - {y}, b - {y});
    }
  }

  /** A list of numbers known to be ids, at the id type. */
  function AsIds(xs: seq<int>): (r: seq<Id>)
    requires forall x :: x in Elems(xs) ==> x >= 1
    ensures r == xs
  {
    if xs == [] then [] else
      assert xs[0] in Elems(xs);
      assert Elems(xs[1..]) <= Elems(xs);
      [xs[0] as Id] + AsIds(xs[1..])
  }

  lemma ElemsAppend<T>(s: seq<T>, x: T)
    ensures Elems(s + [x]) == Elems(s) + {x}
  {
    assert forall y :: y in s + [x] <==> y in s || y == x;
  }

  /** Decimal text of a natural number, as a JavaScript template literal prints it. */
  function NatToString(n: nat): (r: string)
    ensures |r| >= 1
    ensures forall i :: 0 <= i < |r| ==> '0' <= r[i] <= '9'
    decreases n
  {
    var d := ['0' + (n % 10) as char];
    if n < 10 then d else NatToString(n / 10) + d
  }

  /** Decimal text of an integer: a leading '-' for negative values. */
  function IntToString(i: int): (r: string)
    ensures |r| >= 1
    ensures (r[0] == '-') <==> i < 0
  {
    if i < 0 then "-" + NatToString(-i) else NatToString(i)
  }

  function BoolToString(b: bool): string {
    if b then "true" else "false"
  }
}
