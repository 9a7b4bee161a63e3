/**
 * The attribute filter of the content-manager list view: which attributes
 * of a content type a user may filter on, given the read permissions found
 * for the content type and whether the user may read admin users.
 *
 * The permission lookups are inputs: `readPermissions` is the list of
 * permissions matching the content type's read action, `adminUsersRead`
 * the list matching the admin-users read action.
 */
module AllowedAttributes {
  import opened Wrappers
  import opened JsValues

  /** Attribute types that can never be filtered on. */
  const NotAllowedFilters: seq<string> := ["json", "component", "media", "richtext", "dynamiczone", "password"]

  /** The timestamps every reader may filter on. */
  const Timestamps: seq<string> := ["createdAt", "updatedAt"]

  /** The author attributes added for users who may read admin users. */
  const AdminFields: seq<string> := ["createdBy", "updatedBy"]

  /** A content type, with its attributes as the entries of the attributes object in key order. */
  datatype ContentType = ContentType(attributes: seq<(string, Row)>)

  /**
   * `get(readPermissions, ['0', 'properties', 'fields'], [])`: the fields of
   * the first matching permission, or none when there is no permission or it
   * has no field list.
   */
  function ReadableFields(readPermissions: seq<Row>): (fields: seq<Value>)
    ensures readPermissions == [] ==> fields == []
    ensures fields != [] ==> Get(readPermissions[0], "properties").Some?
    // the first permission's `properties.fields` array, when it has one
    ensures readPermissions != [] && Get(readPermissions[0], "properties").Some?
            && Get(readPermissions[0], "properties").value.Obj?
            && Get(Get(readPermissions[0], "properties").value.fields, "fields").Some?
            && Get(Get(readPermissions[0], "properties").value.fields, "fields").value.Arr? ==>
              fields == Get(Get(readPermissions[0], "properties").value.fields, "fields").value.items
  {
    if readPermissions == [] then []
    else match Get(readPermissions[0], "properties")
      case Some(Obj(properties)) =>
        (match Get(properties, "fields")
         case Some(Arr(items)) => items
         case _ => [])
      case _ => []
  }

  /** The filter callback: does attribute `name`, described by `attr`, pass? */
  predicate IsAllowed(name: string, attr: Row, readable: seq<Value>) {
    var t := Get(attr, "type");
    && Truthy(t)
    && !(exists k <- NotAllowedFilters :: t == Some(Str(k)))
    && (Str(name) in readable || name == "id" || name in Timestamps)
  }

  /** `attributesArray.filter(...)`: the names of the attributes that pass, in key order. */
  function FilterAttributes(attributes: seq<(string, Row)>, readable: seq<Value>): seq<string> {
    if attributes == [] then []
    else
      var last := attributes[|attributes| - 1];
      FilterAttributes(attributes[..|attributes| - 1], readable) + (if IsAllowed(last.0, last.1, readable) then [last.0] else [])
  }

  /** Whether attribute `name` is in `attributes` with a passing description. */
  predicate HasAllowedAttribute(attributes: seq<(string, Row)>, name: string, readable: seq<Value>) {
    exists i :: 0 <= i < |attributes| && attributes[i].0 == name && IsAllowed(name, attributes[i].1, readable)
  }

  /** A name is kept exactly when some attribute of that name passes the filter. */
  lemma {:induction false} FilterAttributesMembers(attributes: seq<(string, Row)>, readable: seq<Value>, name: string)
    ensures name in FilterAttributes(attributes, readable) <==> HasAllowedAttribute(attributes, name, readable)
  {
    if attributes != [] {
      var n := |attributes| - 1;
      var init := attributes[..n];
      var last := attributes[n];
      FilterAttributesMembers(init, readable, name);
      assert FilterAttributes(attributes, readable)
          == FilterAttributes(init, readable) + (if IsAllowed(last.0, last.1, readable) then [last.0] else []);
      if HasAllowedAttribute(init, name, readable) {
        var i :| 0 <= i < |init| && init[i].0 == name && IsAllowed(name, init[i].1, readable);
        assert attributes[i] == init[i];
      }
      if HasAllowedAttribute(attributes, name, readable) {
        var i :| 0 <= i < |attributes| && attributes[i].0 == name && IsAllowed(name, attributes[i].1, readable);
        if i < n {
          assert init[i] == attributes[i];
        }
      }
    }
  }

  // ---------------------------------------------------------------------------
  // Array.prototype.sort on strings
  // ---------------------------------------------------------------------------

  /** The default sort order of strings: lexicographic by character code, a prefix first. */
  predicate LexLe(a: string, b: string) {
    a == [] || (b != [] && (a[0] < b[0] || (a[0] == b[0] && LexLe(a[1..], b[1..]))))
  }

  lemma {:induction false} LexLeTotal(a: string, b: string)
    ensures LexLe(a, b) || LexLe(b, a)
  {
    if a != [] && b != [] && a[0] == b[0] {
      LexLeTotal(a[1..], b[1..]);
    }
  }

  lemma {:induction false} LexLeTransitive(a: string, b: string, c: string)
    requires LexLe(a, b) && LexLe(b, c)
    ensures LexLe(a, c)
  {
    if a != [] && a[0] == b[0] && b[0] == c[0] {
      LexLeTransitive(a[1..], b[1..], c[1..]);
    }
  }

  lemma {:induction false} LexLeAntisymmetric(a: string, b: string)
    requires LexLe(a, b) && LexLe(b, a)
    ensures a == b
  {
    if a != [] {
      LexLeAntisymmetric(a[1..], b[1..]);
      assert a == [a[0]] + a[1..];
      assert b == [b[0]] + b[1..];
    }
  }

  predicate Sorted(s: seq<string>) {
    forall i, j :: 0 <= i < j < |s| ==> LexLe(s[i], s[j])
  }

  /** A sorted list stays sorted under a head that precedes all of its elements. */
  lemma SortedCons(h: string, t: seq<string>)
    requires Sorted(t) && forall y <- t :: LexLe(h, y)
    ensures Sorted([h] + t)
  {
  }

  /** `x` placed before the first element it is not after. */
  function Insert(x: string, s: seq<string>): seq<string> {
    if s == [] then [x]
    else if LexLe(x, s[0]) then [x] + s
    else [s[0]] + Insert(x, s[1..])
  }

  /** Inserting adds exactly one occurrence of `x`. */
  lemma {:induction false} InsertCounts(x: string, s: seq<string>)
    ensures multiset(Insert(x, s)) == multiset(s) + multiset{x}
  {
    if s != [] && !LexLe(x, s[0]) {
      InsertCounts(x, s[1..]);
      assert s == [s[0]] + s[1..];
    }
  }

  /** Inserting into a sorted list keeps it sorted. */
  lemma {:induction false} InsertSorted(x: string, s: seq<string>)
    requires Sorted(s)
    ensures Sorted(Insert(x, s))
  {
    if s == [] {
    } else if LexLe(x, s[0]) {
      forall y | y in s ensures LexLe(x, y) {
        var k :| 0 <= k < |s| && s[k] == y;
        if k > 0 { LexLeTransitive(x, s[0], s[k]); }
      }
      SortedCons(x, s);
    } else {
      LexLeTotal(x, s[0]);
      SortedTail(s);
      InsertSorted(x, s[1..]);
      var rest := Insert(x, s[1..]);
      InsertCounts(x, s[1..]);
      forall y | y in rest ensures LexLe(s[0], y) {
        assert y in multiset(rest);
        if y != x {
          assert y in multiset(s[1..]);
          var k :| 0 <= k < |s[1..]| && s[1..][k] == y;
          assert s[k + 1] == y;
        }
      }
      SortedCons(s[0], rest);
    }
  }

  /** `Array.prototype.sort()` with no comparator, on strings. */
  function SortStrings(xs: seq<string>): (r: seq<string>)
    ensures Sorted(r)
    ensures multiset(r) == multiset(xs)
  {
    if xs == [] then []
    else
      var init := xs[..|xs| - 1];
      var last := xs[|xs| - 1];
      assert xs == init + [last];
      var sortedInit := SortStrings(init);
      InsertSorted(last, sortedInit);
      InsertCounts(last, sortedInit);
      Insert(last, sortedInit)
  }

  /**
   * There is one sorted arrangement of a list: any two sorted permutations
   * are equal, so the result does not depend on the sorting algorithm.
   */
  lemma {:induction false} SortedPermutationsEqual(a: seq<string>, b: seq<string>)
    requires Sorted(a) && Sorted(b) && multiset(a) == multiset(b)
    ensures a == b
  {
    if a != [] {
      assert a[0] in multiset(b);
      assert b != [] && b[0] in multiset(a);
      SortedHeadLeast(b, a[0]);
      SortedHeadLeast(a, b[0]);
      LexLeAntisymmetric(a[0], b[0]);
      assert a == [a[0]] + a[1..];
      assert b == [b[0]] + b[1..];
      assert multiset(a[1..]) == multiset(a) - multiset{a[0]};
      assert multiset(b[1..]) == multiset(b) - multiset{b[0]};
      SortedTail(a);
      SortedTail(b);
      SortedPermutationsEqual(a[1..], b[1..]);
    }
  }

  /** The head of a sorted list precedes every element. */
  lemma SortedHeadLeast(s: seq<string>, y: string)
    requires Sorted(s) && y in s
    ensures LexLe(s[0], y)
  {
    var k :| 0 <= k < |s| && s[k] == y;
    if k == 0 { LexLeTotal(y, y); }
  }

  /** The tail of a sorted list is sorted. */
  lemma SortedTail(s: seq<string>)
    requires Sorted(s) && s != []
    ensures Sorted(s[1..])
  {
  }

  // ---------------------------------------------------------------------------
  // The hook
  // ---------------------------------------------------------------------------

  /**
   * `useAllowedAttributes`: the passing attribute names, with the author
   * attributes pushed when admin users may be read, sorted.
   */
  method UseAllowedAttributes(contentType: ContentType, readPermissions: seq<Row>, adminUsersRead: seq<Row>)
    returns (allowed: seq<string>)
    ensures Sorted(allowed)
    ensures multiset(allowed)
            == multiset(FilterAttributes(contentType.attributes, ReadableFields(readPermissions)))
               + (if |adminUsersRead| > 0 then multiset(AdminFields) else multiset{})
    ensures forall name :: name in allowed <==>
              HasAllowedAttribute(contentType.attributes, name, ReadableFields(readPermissions))
              || (|adminUsersRead| > 0 && name in AdminFields)
  {
    var canReadAdminUsers := |adminUsersRead| > 0;
    var readPermissionForAttr := ReadableFields(readPermissions);
    allowed := FilterAttributes(contentType.attributes, readPermissionForAttr);
    ghost var filtered := allowed;
    if canReadAdminUsers {
      allowed := allowed + AdminFields;
    }
    assert multiset(allowed) == multiset(filtered) + (if canReadAdminUsers then multiset(AdminFields) else multiset{});
    allowed := SortStrings(allowed);
    forall name
      ensures name in allowed <==> HasAllowedAttribute(contentType.attributes, name, readPermissionForAttr)
                                   || (canReadAdminUsers && name in AdminFields)
    {
      FilterAttributesMembers(contentType.attributes, readPermissionForAttr, name);
      assert name in allowed <==> name in multiset(allowed);
      assert name in filtered <==> name in multiset(filtered);
      assert name in AdminFields <==> name in multiset(AdminFields);
    }
  }

  /** Every name the filter keeps is an attribute of the content type; the hook adds only the author attributes. */
  lemma AllowedNamesAreAttributes(attributes: seq<(string, Row)>, readable: seq<Value>, name: string)
    requires name in FilterAttributes(attributes, readable)
    ensures exists i :: 0 <= i < |attributes| && attributes[i].0 == name
  {
    FilterAttributesMembers(attributes, readable, name);
  }

  /** A name whose every attribute has no type, or a type that cannot be filtered on, is never kept. */
  lemma ExcludedTypes(attributes: seq<(string, Row)>, readable: seq<Value>, name: string)
    requires forall i :: 0 <= i < |attributes| && attributes[i].0 == name ==>
               !Truthy(Get(attributes[i].1, "type"))
               || exists k <- NotAllowedFilters :: Get(attributes[i].1, "type") == Some(Str(k))
    ensures name !in FilterAttributes(attributes, readable)
  {
    FilterAttributesMembers(attributes, readable, name);
  }

  /**
   * With no matching read permission only `id` and the timestamps can pass,
   * and they pass whenever their type is truthy and filterable.
   */
  lemma WithoutPermissionOnlyIdAndTimestamps(attributes: seq<(string, Row)>, name: string)
    ensures name in FilterAttributes(attributes, ReadableFields([]))
            ==> name == "id" || name == "createdAt" || name == "updatedAt"
  {
    FilterAttributesMembers(attributes, [], name);
  }

  /** A readable, typed, filterable attribute is kept; so are `id` and the timestamps. */
  lemma AllowedWhenReadable(attributes: seq<(string, Row)>, readable: seq<Value>, i: int)
    requires 0 <= i < |attributes|
    requires Truthy(Get(attributes[i].1, "type"))
    requires forall k <- NotAllowedFilters :: Get(attributes[i].1, "type") != Some(Str(k))
    requires var name := attributes[i].0;
             Str(name) in readable || name == "id" || name == "createdAt" || name == "updatedAt"
    ensures attributes[i].0 in FilterAttributes(attributes, readable)
  {
    FilterAttributesMembers(attributes, readable, attributes[i].0);
  }
}
