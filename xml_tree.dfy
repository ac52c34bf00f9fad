/**
 * `etree_to_dict` of the advisory parser: an XML element tree becomes nested
 * dicts. The element tree is a datatype; the dict values are the four shapes the
 * conversion produces (None, a string, a dict, a list).
 */
module XmlTree {
  import opened Wrappers
  import Dicts
  import Strs

  /** An element: its tag (with the `{namespace}` prefix), attributes, text and children. */
  datatype Node = Node(tag: string, attrib: Dicts.Dict<string, string>, text: Option<string>, children: seq<Node>)

  /** A value of the converted tree. */
  datatype Value = Null | Str(s: string) | Obj(fields: Dicts.Dict<string, Value>) | List(items: seq<Value>)

  /** The exceptions the parser raises or lets through. */
  datatype PyError = KeyError | TypeError | IndexError | AttributeError | ParseAdvisoryError

  // ---------------------------------------------------------------- tag names

  /** Two or more pieces come out of a split exactly when the separator occurs. */
  lemma {:induction false} SplitMany(s: string, sep: char)
    ensures |Strs.Split(s, sep)| >= 2 <==> sep in s
  {
    if s != [] {
      var n := |s| - 1;
      SplitMany(s[..n], sep);
      assert s == s[..n] + [s[n]];
    }
  }

  /** Appending one character other than the separator extends the last piece. */
  lemma SplitSnoc(s: string, c: char, sep: char)
    requires c != sep
    ensures var r := Strs.Split(s, sep);
      Strs.Split(s + [c], sep) == r[..|r| - 1] + [r[|r| - 1] + [c]]
  {
    assert (s + [c])[..|s|] == s;
  }

  /** Appending text without the separator extends the last piece. */
  lemma {:induction false} SplitAppend(s: string, t: string, sep: char)
    requires sep !in t
    ensures var r := Strs.Split(s, sep);
      Strs.Split(s + t, sep) == r[..|r| - 1] + [r[|r| - 1] + t]
    decreases |t|
  {
    var r := Strs.Split(s, sep);
    var a, b := r[..|r| - 1], r[|r| - 1];
    if t == [] {
      assert s + t == s;
      assert r == a + [b];
      assert b + t == b;
    } else {
      var c := t[0];
      assert Strs.Split(s + [c], sep) == a + [b + [c]] by {
        assert c != sep by { assert c in t; }
        SplitSnoc(s, c, sep);
      }
      assert Strs.Split((s + [c]) + t[1..], sep) == a + [(b + [c]) + t[1..]] by {
        var r' := Strs.Split(s + [c], sep);
        assert r'[..|r'| - 1] == a && r'[|r'| - 1] == b + [c];
        SplitAppend(s + [c], t[1..], sep);
      }
      assert s + t == (s + [c]) + t[1..];
      assert (b + [c]) + t[1..] == b + t;
    }
  }

  /** `node.tag.split("}")[1]`: IndexError when the tag has no "}". */
  function TagName(tag: string): (r: Result<string, PyError>)
    ensures r.Err? <==> '}' !in tag
    ensures r.Err? ==> r.error == IndexError
    ensures r.Ok? ==> '}' !in r.value
  {
    var parts := Strs.Split(tag, '}');
    SplitMany(tag, '}');
    Strs.SplitPieces(tag, '}');
    if |parts| < 2 then Err(IndexError) else Ok(parts[1])
  }

  /** The tag of a namespaced element gives back its local name. */
  lemma TagNameLocal(ns: string, local: string)
    requires '}' !in ns && '}' !in local
    ensures TagName("{" + ns + "}" + local) == Ok(local)
  {
    var head := "{" + ns;
    assert '}' !in head;
    Strs.SplitNone(head, '}');
    assert head + "}" == head + ['}'];
    assert (head + "}")[..|head|] == head;
    assert (head + "}")[|head|] == '}';
    assert Strs.Split(head + "}", '}') == [head, ""];
    SplitAppend(head + "}", local, '}');
    assert Strs.Split((head + "}") + local, '}') == [head, "" + local];
    assert "" + local == local;
    assert "{" + ns + "}" + local == (head + "}") + local;
  }

  // ---------------------------------------------------------------- str.strip

  /** The characters Python's `str.isspace` accepts. */
  predicate IsSpace(ch: char)
  {
    var c := ch as int;
    || c == 0x20 || 0x09 <= c <= 0x0D || 0x1C <= c <= 0x1F || c == 0x85 || c == 0xA0 || c == 0x1680
    || 0x2000 <= c <= 0x200A || c == 0x2028 || c == 0x2029 || c == 0x202F || c == 0x205F || c == 0x3000
  }

  function TrimLeft(s: string): (r: string)
    ensures |r| <= |s| && r == s[|s| - |r|..]
    ensures forall k :: 0 <= k < |s| - |r| ==> IsSpace(s[k])
    ensures r != "" ==> !IsSpace(r[0])
  {
    if s == [] || !IsSpace(s[0]) then s
    else
      var r := TrimLeft(s[1..]);
      assert forall k :: 1 <= k < |s| - |r| ==> s[k] == s[1..][k - 1];
      r
  }

  function TrimRight(s: string): (r: string)
    ensures |r| <= |s| && r == s[..|r|]
    ensures forall k :: |r| <= k < |s| ==> IsSpace(s[k])
    ensures r != "" ==> !IsSpace(r[|r| - 1])
  {
    if s == [] || !IsSpace(s[|s| - 1]) then s
    else TrimRight(s[..|s| - 1])
  }

  /** `s.strip()`. */
  function Strip(s: string): string
  {
    TrimRight(TrimLeft(s))
  }

  /**
   * What strip leaves is the stretch of s between a run of leading and a run of
   * trailing whitespace, and it neither starts nor ends with whitespace.
   */
  lemma StripExact(s: string) returns (i: int, j: int)
    ensures 0 <= i <= j <= |s| && Strip(s) == s[i..j]
    ensures forall k :: 0 <= k < i ==> IsSpace(s[k])
    ensures forall k :: j <= k < |s| ==> IsSpace(s[k])
    ensures Strip(s) != "" ==> !IsSpace(Strip(s)[0]) && !IsSpace(Strip(s)[|Strip(s)| - 1])
  {
    var l := TrimLeft(s);
    i := |s| - |l|;
    TrimRightTail(s, i, l);
    j := i + |TrimRight(l)|;
    StripEnds(s);
  }

  /** What strip leaves neither starts nor ends with whitespace. */
  lemma StripEnds(s: string)
    ensures var r := Strip(s); r != "" ==> !IsSpace(r[0]) && !IsSpace(r[|r| - 1])
  {
    var l := TrimLeft(s);
    var r := TrimRight(l);
    if r != "" {
      assert r[0] == l[0];
    }
  }

  /** Trimming the right of a suffix of s leaves only whitespace of s behind it. */
  lemma TrimRightTail(s: string, i: nat, l: string)
    requires i <= |s| && l == s[i..]
    ensures var r := TrimRight(l);
      && r == s[i..i + |r|]
      && forall k :: i + |r| <= k < |s| ==> IsSpace(s[k])
  {
    var r := TrimRight(l);
    forall k | i + |r| <= k < |s| ensures IsSpace(s[k]) {
      assert IsSpace(l[k - i]);
    }
  }

  // ---------------------------------------------------------------- building a node's value

  /** The key of every (key, value) entry, in order. */
  function EntryKeys(entries: seq<(string, Value)>): (r: seq<string>)
    ensures |r| == |entries|
    ensures forall i :: 0 <= i < |entries| ==> r[i] == entries[i].0
  {
    seq(|entries|, i requires 0 <= i < |entries| => entries[i].0)
  }

  /** The values of the entries under key k, in order. */
  function Under(entries: seq<(string, Value)>, k: string): seq<Value>
  {
    if entries == [] then []
    else
      var n := |entries| - 1;
      Under(entries[..n], k) + (if entries[n].0 == k then [entries[n].1] else [])
  }

  /** The value list one entry extends. */
  function Grown(d: Dicts.Dict<string, seq<Value>>, e: (string, Value)): seq<Value>
  {
    match Dicts.Get(d, e.0)
    case None => [e.1]
    case Some(vs) => vs + [e.1]
  }

  /** The `defaultdict(list)` of the children's entries: each key's values in order. */
  function Group(entries: seq<(string, Value)>): Dicts.Dict<string, seq<Value>>
  {
    if entries == [] then []
    else
      var n := |entries| - 1;
      var d := Group(entries[..n]);
      Dicts.Put(d, entries[n].0, Grown(d, entries[n]))
  }

  /** The grouped keys are the children's keys in order of first appearance. */
  lemma {:induction false} GroupKeys(entries: seq<(string, Value)>)
    ensures Dicts.Keys(Group(entries)) == Dicts.FirstSeen(EntryKeys(entries))
  {
    if entries != [] {
      var n := |entries| - 1;
      GroupKeys(entries[..n]);
      assert EntryKeys(entries)[..n] == EntryKeys(entries[..n]);
      Dicts.PutKeys(Group(entries[..n]), entries[n].0, Grown(Group(entries[..n]), entries[n]));
    }
  }

  /** Each grouped key holds all its values, in order. */
  lemma {:induction false} GroupGet(entries: seq<(string, Value)>, k: string)
    ensures Dicts.Get(Group(entries), k) == if Under(entries, k) == [] then None else Some(Under(entries, k))
  {
    if entries != [] {
      var n := |entries| - 1;
      var init := entries[..n];
      var d := Group(init);
      GroupGet(init, k);
      assert Under(entries, k) == Under(init, k) + (if entries[n].0 == k then [entries[n].1] else []);
      assert Group(entries) == Dicts.Put(d, entries[n].0, Grown(d, entries[n]));
      if entries[n].0 == k {
        if Under(init, k) == [] {
          assert Under(entries, k) == [entries[n].1];
        }
      } else {
        assert Under(entries, k) == Under(init, k);
        Dicts.PutOther(d, entries[n].0, Grown(d, entries[n]), k);
      }
    }
  }

  /** Some value is under k exactly when some entry has key k. */
  lemma {:induction false} UnderNonEmpty(entries: seq<(string, Value)>, k: string)
    ensures Under(entries, k) != [] <==> k in EntryKeys(entries)
  {
    if entries != [] {
      var n := |entries| - 1;
      UnderNonEmpty(entries[..n], k);
      assert EntryKeys(entries) == EntryKeys(entries[..n]) + [entries[n].0];
    }
  }

  /** A key with one value keeps the value itself, a key with several gets the list. */
  function Collapsed(vs: seq<Value>): Value
  {
    if |vs| == 1 then vs[0] else List(vs)
  }

  /** `{k: v[0] if len(v) == 1 else v for k, v in dd.items()}`. */
  function Collapse(g: Dicts.Dict<string, seq<Value>>): (r: Dicts.Dict<string, Value>)
    ensures |r| == |g|
    ensures forall i :: 0 <= i < |g| ==> r[i] == (g[i].0, Collapsed(g[i].1))
  {
    seq(|g|, i requires 0 <= i < |g| => (g[i].0, Collapsed(g[i].1)))
  }

  lemma {:induction false} CollapseGet(g: Dicts.Dict<string, seq<Value>>, k: string)
    ensures Dicts.Get(Collapse(g), k) == match Dicts.Get(g, k) case Some(vs) => Some(Collapsed(vs)) case None => None
  {
    if g != [] {
      assert Collapse(g)[1..] == Collapse(g[1..]);
      CollapseGet(g[1..], k);
    }
  }

  /** `node_dict[node_name].update(node.attrib.items())`: each attribute written in order. */
  function WithAttrib(fields: Dicts.Dict<string, Value>, attrib: Dicts.Dict<string, string>): Dicts.Dict<string, Value>
  {
    if attrib == [] then fields
    else
      var n := |attrib| - 1;
      Dicts.Put(WithAttrib(fields, attrib[..n]), attrib[n].0, Str(attrib[n].1))
  }

  /** The value of the last attribute named k. */
  function LastAttr(attrib: Dicts.Dict<string, string>, k: string): Option<string>
  {
    if attrib == [] then None
    else
      var n := |attrib| - 1;
      if attrib[n].0 == k then Some(attrib[n].1) else LastAttr(attrib[..n], k)
  }

  lemma {:induction false} WithAttribGet(fields: Dicts.Dict<string, Value>, attrib: Dicts.Dict<string, string>, k: string)
    ensures Dicts.Get(WithAttrib(fields, attrib), k) ==
      match LastAttr(attrib, k) case Some(v) => Some(Str(v)) case None => Dicts.Get(fields, k)
  {
    if attrib != [] {
      var n := |attrib| - 1;
      WithAttribGet(fields, attrib[..n], k);
      if attrib[n].0 != k {
        Dicts.PutOther(WithAttrib(fields, attrib[..n]), attrib[n].0, Str(attrib[n].1), k);
      }
    }
  }

  /**
   * The value a node gets from its children's entries, its attributes and its
   * text: a bare leaf is its stripped text (None without text); anything else is
   * a dict of the grouped children, then the attributes, then the stripped text
   * under "text" when it is not blank.
   */
  function NodeValue(entries: seq<(string, Value)>, hasChildren: bool, attrib: Dicts.Dict<string, string>, text: Option<string>): Value
  {
    if !hasChildren && attrib == [] then
      match text
      case Some(t) => if t != "" then Str(Strip(t)) else Null
      case None => Null
    else
      var fields := WithAttrib(if hasChildren then Collapse(Group(entries)) else [], attrib);
      match text
      case Some(t) => if Strip(t) != "" then Obj(Dicts.Put(fields, "text", Str(Strip(t)))) else Obj(fields)
      case None => Obj(fields)
  }

  /** The stripped text of a node, when it is there and not blank. */
  function TextOf(text: Option<string>): Option<string>
  {
    match text
    case Some(t) => if Strip(t) != "" then Some(Strip(t)) else None
    case None => None
  }

  /**
   * A node with children or attributes becomes a dict whose key k holds: the
   * stripped text for "text" when the text is not blank; otherwise the last
   * attribute named k; otherwise the children's values under k, the value itself
   * for one child and the list for several; and nothing for any other key.
   */
  lemma NodeValueFields(entries: seq<(string, Value)>, hasChildren: bool, attrib: Dicts.Dict<string, string>, text: Option<string>, k: string)
    requires hasChildren || attrib != []
    ensures NodeValue(entries, hasChildren, attrib, text).Obj?
    ensures Dicts.Get(NodeValue(entries, hasChildren, attrib, text).fields, k) ==
      if k == "text" && TextOf(text).Some? then Some(Str(TextOf(text).value))
      else match LastAttr(attrib, k)
        case Some(v) => Some(Str(v))
        case None => if hasChildren && k in EntryKeys(entries) then Some(Collapsed(Under(entries, k))) else None
  {
    var base := if hasChildren then Collapse(Group(entries)) else [];
    var fields := WithAttrib(base, attrib);
    WithAttribGet(base, attrib, k);
    if hasChildren {
      CollapseGet(Group(entries), k);
      GroupGet(entries, k);
      UnderNonEmpty(entries, k);
    }
    if TextOf(text).Some? && k != "text" {
      Dicts.PutOther(fields, "text", Str(TextOf(text).value), k);
    }
  }

  // ---------------------------------------------------------------- etree_to_dict

  /** The entries of all results, or the first error among them. */
  function AllOk<T, E>(rs: seq<Result<T, E>>): (r: Result<seq<T>, E>)
    ensures r.Ok? <==> forall i :: 0 <= i < |rs| ==> rs[i].Ok?
    ensures r.Ok? ==> |r.value| == |rs| && forall i :: 0 <= i < |rs| ==> r.value[i] == rs[i].value
    ensures r.Err? ==> exists i :: 0 <= i < |rs| && rs[i] == Err(r.error) && forall j :: 0 <= j < i ==> rs[j].Ok?
  {
    if rs == [] then Ok([])
    else
      var n := |rs| - 1;
      var prev := AllOk(rs[..n]);
      assert forall i :: 0 <= i < n ==> rs[..n][i] == rs[i];
      match prev
      case Err(e) => Err(e)
      case Ok(xs) =>
        match rs[n]
        case Ok(x) => Ok(xs + [x])
        case Err(e) => Err(e)
  }

  /**
   * `etree_to_dict`: the node's local name and its value, computed from its
   * children's results in order; the first error raised anywhere below wins.
   */
  function EtreeToDict(node: Node): Result<(string, Value), PyError>
    decreases node
  {
    match TagName(node.tag)
    case Err(e) => Err(e)
    case Ok(name) =>
      var results := seq(|node.children|, i requires 0 <= i < |node.children| => EtreeToDict(node.children[i]));
      match AllOk(results)
      case Err(e) => Err(e)
      case Ok(entries) => Ok((name, NodeValue(entries, node.children != [], node.attrib, node.text)))
  }

  /**
   * A converted node is keyed by its local name; a bare leaf holds its stripped
   * text (None when it has none), and its children's local names are the keys of
   * the groups its dict holds.
   */
  lemma EtreeToDictShape(node: Node)
    requires EtreeToDict(node).Ok?
    ensures TagName(node.tag).Ok? && EtreeToDict(node).value.0 == TagName(node.tag).value
    ensures node.children == [] && node.attrib == [] ==>
      EtreeToDict(node).value.1 == (if node.text.Some? && node.text.value != "" then Str(Strip(node.text.value)) else Null)
    ensures forall i :: 0 <= i < |node.children| ==>
      EtreeToDict(node.children[i]).Ok? && EtreeToDict(node.children[i]).value.0 == TagName(node.children[i].tag).value
  {
    var results := seq(|node.children|, i requires 0 <= i < |node.children| => EtreeToDict(node.children[i]));
    forall i | 0 <= i < |node.children|
      ensures EtreeToDict(node.children[i]).Ok? && EtreeToDict(node.children[i]).value.0 == TagName(node.children[i].tag).value
    {
      assert results[i].Ok?;
    }
  }
}
