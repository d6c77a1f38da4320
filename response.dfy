/** An HTTP response: a table of header fields keyed by lower-cased name, kept in an `ArrayMap`, and
    a message body. A response is malformed when it lacks a `:status` pseudo-header holding a
    status, the first of the checks section 8.1.2.4 of RFC 7540 asks of a response. */
module HttpResponse {
  import opened Wrappers
  import opened Text
  import opened ArrayMaps
  import HttpDate

  /** A header field: the status pseudo-header, a date-valued header, any other header as text, or
      `NoField`, which stands for a header that is not there. */
  datatype HeaderField =
    | NoField
    | Status(code: string, reasonPhrase: string)
    | DateField(field: HttpDate.HttpDateField)
    | TextField(name: string, value: string)

  /** `getName()` of a header field. */
  function Name(h: HeaderField): string {
    match h
    case NoField => ""
    case Status(_, _) => ":status"
    case DateField(f) => f.name
    case TextField(n, _) => n
  }

  /** The message body. */
  datatype Body = Body(content: string)

  /** Every key is its own lower-case form. */
  predicate LowerKeys(es: seq<(string, HeaderField)>) {
    forall i :: 0 <= i < |es| ==> ToLower(es[i].0) == es[i].0
  }

  /** Storing under a lower-cased name keeps every key lower-case. */
  lemma AssignLowerKeys(es: seq<(string, HeaderField)>, name: string, h: HeaderField)
    requires LowerKeys(es)
    ensures LowerKeys(Assign(es, ToLower(name), h))
  {
    var r := Assign(es, ToLower(name), h);
    AssignKeys(es, ToLower(name), h);
    ToLowerIdempotent(name);
    forall i | 0 <= i < |r| ensures ToLower(r[i].0) == r[i].0 {
      assert KeysOf(r)[i] == r[i].0;
      if i < |es| {
        assert KeysOf(es)[i] == es[i].0;
      }
    }
  }

  class Response {
    const headerList: ArrayMap<HeaderField>
    var body: Option<Body>

    ghost predicate Valid()
      reads this, headerList
    {
      headerList.Valid() && LowerKeys(headerList.data)
    }

    /** A new response: no header fields and no body. */
    constructor ()
      ensures Valid() && fresh(headerList)
      ensures headerList.data == [] && body == None
    {
      headerList := new ArrayMap();
      body := None;
    }

    /** `getHeader($name)`: the field stored under the lower-cased name, or `NoField`, never null. */
    method GetHeader(name: string) returns (h: HeaderField)
      requires Valid()
      ensures forall i :: 0 <= i < |headerList.data| && headerList.data[i].0 == ToLower(name) ==>
                h == headerList.data[i].1
      ensures ToLower(name) !in KeysOf(headerList.data) ==> h == NoField
    {
      var found := headerList.Get(ToLower(name), None);
      h := if found.Some? then found.value else NoField;
    }

    /** `hasHeader($name)`: whether a field is stored under the lower-cased name. */
    method HasHeader(name: string) returns (b: bool)
      ensures b <==> exists i :: 0 <= i < |headerList.data| && headerList.data[i].0 == ToLower(name)
    {
      b := headerList.ContainsKey(ToLower(name));
    }

    /** `getHeaderList()`: the stored fields with their lower-case names, in the order first set. */
    method GetHeaderList() returns (pairs: seq<(string, HeaderField)>)
      requires Valid()
      ensures pairs == headerList.data
      ensures LowerKeys(pairs) && DistinctKeys(pairs)
      ensures forall name :: Lookup(pairs, name) == Lookup(headerList.data, name)
    {
      pairs := headerList.AsArray();
    }

    /** `setHeader($item)`: the field is stored under its lower-cased name, replacing whatever was
        stored under any spelling of that name. */
    method SetHeader(item: HeaderField)
      requires Valid()
      modifies headerList
      ensures Valid()
      ensures headerList.data == Assign(old(headerList.data), ToLower(Name(item)), item)
      ensures forall name :: ToLower(name) == ToLower(Name(item)) ==>
                Lookup(headerList.data, ToLower(name)) == Some(item)
      ensures forall name :: ToLower(name) != ToLower(Name(item)) ==>
                Lookup(headerList.data, ToLower(name)) == Lookup(old(headerList.data), ToLower(name))
    {
      AssignLowerKeys(headerList.data, Name(item), item);
      forall name ensures Lookup(Assign(headerList.data, ToLower(Name(item)), item), ToLower(name)) ==
                          if ToLower(name) == ToLower(Name(item)) then Some(item)
                          else Lookup(headerList.data, ToLower(name)) {
        AssignLookup(headerList.data, ToLower(Name(item)), item, ToLower(name));
      }
      headerList.Put(ToLower(Name(item)), item);
    }

    /** `isMalformed()`: true exactly when no `:status` field is stored or the stored one is not a
        status. */
    method IsMalformed() returns (b: bool)
      requires Valid()
      ensures !b <==> exists i :: 0 <= i < |headerList.data| &&
                        headerList.data[i].0 == ":status" && headerList.data[i].1.Status?
    {
      var valid := ValidateStatusHeader();
      b := !valid;
    }

    /** `validateStatusHeader()`. */
    method ValidateStatusHeader() returns (ok: bool)
      requires Valid()
      ensures ok <==> exists i :: 0 <= i < |headerList.data| &&
                        headerList.data[i].0 == ":status" && headerList.data[i].1.Status?
    {
      StatusName();
      var has := HasHeader(":status");
      if !has {
        return false;
      }
      var status := GetHeader(":status");
      ok := status.Status?;
    }

    /** `setBody($body)`. */
    method SetBody(b: Body)
      modifies this
      ensures body == Some(b)
    {
      body := Some(b);
    }

    /** `getBody()`: the body last set, null before any. */
    method GetBody() returns (b: Option<Body>)
      ensures b == body
    {
      b := body;
    }
  }

  /** The name of the status pseudo-header is already lower-case. */
  lemma StatusName()
    ensures ToLower(":status") == ":status"
  {
    var s := ":status";
    assert forall k :: 0 <= k < |s| ==> LowerChar(s[k]) == s[k];
  }

  /** Setting a status field makes a response well formed, whatever else it holds; a table without
      a `:status` key is malformed. */
  lemma StatusDecidesMalformed(es: seq<(string, HeaderField)>, code: string, phrase: string)
    requires DistinctKeys(es)
    ensures var r := Assign(es, ToLower(Name(Status(code, phrase))), Status(code, phrase));
            exists i :: 0 <= i < |r| && r[i].0 == ":status" && r[i].1.Status?
    ensures ":status" !in KeysOf(es) ==> !exists i :: 0 <= i < |es| && es[i].0 == ":status"
  {
    StatusName();
    var r := Assign(es, ":status", Status(code, phrase));
    AssignLookup(es, ":status", Status(code, phrase), ":status");
    AssignDistinct(es, ":status", Status(code, phrase));
    LookupFound(r, ":status");
    var i :| 0 <= i < |r| && KeysOf(r)[i] == ":status";
    LookupAt(r, i);
    if ":status" !in KeysOf(es) {
      forall i | 0 <= i < |es| ensures es[i].0 != ":status" {
        assert KeysOf(es)[i] == es[i].0;
      }
    }
  }
}
