/**
 * The attribute model the envelope and the server build on: `IppValue`,
 * `IppAttribute` and `IppAttributeList`. Only their structure is modelled
 * here; their wire encoding is not part of this model and reaches the
 * envelope as an opaque serialiser.
 */
module Attributes {
  import opened IppTypes

  /** The IPP value kinds, one variant per value tag, plus a multi-valued collection. */
  datatype IppValue =
    | Integer(number: i32)
    | Boolean(flag: bool)
    | Enum(number: i32)
    | OctetString(octets: seq<byte>)
    | DateTime(octets: seq<byte>)
    | Resolution(crossFeed: i32, feed: i32, units: byte)
    | RangeOfInteger(low: i32, high: i32)
    | TextWithLanguage(language: string, text: string)
    | NameWithLanguage(language: string, text: string)
    | TextWithoutLanguage(text: string)
    | NameWithoutLanguage(text: string)
    | Keyword(text: string)
    | Uri(text: string)
    | UriScheme(text: string)
    | Charset(text: string)
    | NaturalLanguage(text: string)
    | MimeMediaType(text: string)
    | ListOf(values: seq<IppValue>)
    | Unsupported
    | Unknown
    | NoValue
    | Other(tag: byte, octets: seq<byte>)

  datatype IppAttribute = IppAttribute(name: string, value: IppValue)

  /** The attributes of one delimiter group, in insertion order. */
  datatype AttributeGroup = AttributeGroup(tag: byte, attributes: seq<IppAttribute>)

  /**
   * `IppAttributeList`: groups in the order they were first used, each
   * holding its attributes in the order they were added.
   */
  datatype IppAttributeList = IppAttributeList(groups: seq<AttributeGroup>)
  {
    /** `IppAttributeList::add`. */
    function Add(tag: byte, attribute: IppAttribute): IppAttributeList
    {
      IppAttributeList(AddTo(groups, tag, attribute))
    }

    /** `IppAttributeList::get_group`: the group's attributes, if the group was ever populated. */
    function GetGroup(tag: byte): Option<seq<IppAttribute>>
    {
      Find(groups, tag)
    }

    /** The group's attributes, empty for a group never populated. */
    function Group(tag: byte): seq<IppAttribute>
    {
      match GetGroup(tag)
      case Some(attrs) => attrs
      case None => []
    }

    /** `IppAttributeList::get`: the first attribute of the group with that name. */
    function Get(tag: byte, name: string): Option<IppAttribute>
    {
      FirstNamed(Group(tag), name)
    }
  }

  function Tags(gs: seq<AttributeGroup>): seq<byte>
  {
    if gs == [] then [] else [gs[0].tag] + Tags(gs[1..])
  }

  function AddTo(gs: seq<AttributeGroup>, tag: byte, a: IppAttribute): seq<AttributeGroup>
  {
    if gs == [] then [AttributeGroup(tag, [a])]
    else if gs[0].tag == tag then [AttributeGroup(tag, gs[0].attributes + [a])] + gs[1..]
    else [gs[0]] + AddTo(gs[1..], tag, a)
  }

  function Find(gs: seq<AttributeGroup>, tag: byte): Option<seq<IppAttribute>>
  {
    if gs == [] then None
    else if gs[0].tag == tag then Some(gs[0].attributes)
    else Find(gs[1..], tag)
  }

  function FirstNamed(attrs: seq<IppAttribute>, name: string): Option<IppAttribute>
  {
    if attrs == [] then None
    else if attrs[0].name == name then Some(attrs[0])
    else FirstNamed(attrs[1..], name)
  }

  /** The names of a sequence of attributes, in order. */
  function Names(attrs: seq<IppAttribute>): (ns: seq<string>)
    ensures |ns| == |attrs|
    ensures forall i :: 0 <= i < |attrs| ==> ns[i] == attrs[i].name
  {
    if attrs == [] then [] else [attrs[0].name] + Names(attrs[1..])
  }

  lemma {:induction false} FindAddTo(gs: seq<AttributeGroup>, tag: byte, a: IppAttribute, other: byte)
    ensures Find(AddTo(gs, tag, a), tag) == Some(if Find(gs, tag).Some? then Find(gs, tag).value + [a] else [a])
    ensures other != tag ==> Find(AddTo(gs, tag, a), other) == Find(gs, other)
  {
    if gs != [] && gs[0].tag != tag {
      FindAddTo(gs[1..], tag, a, other);
      assert AddTo(gs, tag, a)[1..] == AddTo(gs[1..], tag, a);
    }
  }

  lemma {:induction false} TagsAddTo(gs: seq<AttributeGroup>, tag: byte, a: IppAttribute)
    ensures Tags(AddTo(gs, tag, a)) == if tag in Tags(gs) then Tags(gs) else Tags(gs) + [tag]
  {
    if gs != [] {
      if gs[0].tag == tag {
        assert Tags(AddTo(gs, tag, a)) == [tag] + Tags(gs[1..]);
      } else {
        TagsAddTo(gs[1..], tag, a);
        assert AddTo(gs, tag, a)[1..] == AddTo(gs[1..], tag, a);
      }
    }
  }

  /**
   * `add` appends the attribute to the end of its group, creating the
   * group after all existing ones if it is new, and leaves every other
   * group as it was.
   */
  lemma AddAppends(l: IppAttributeList, tag: byte, a: IppAttribute, other: byte)
    ensures l.Add(tag, a).GetGroup(tag) == Some(l.Group(tag) + [a])
    ensures other != tag ==> l.Add(tag, a).GetGroup(other) == l.GetGroup(other)
    ensures Tags(l.Add(tag, a).groups) == if tag in Tags(l.groups) then Tags(l.groups) else Tags(l.groups) + [tag]
  {
    FindAddTo(l.groups, tag, a, other);
    if Find(l.groups, tag).None? {
      assert l.Group(tag) + [a] == [a];
    }
    TagsAddTo(l.groups, tag, a);
  }

  /** `get` finds an attribute exactly when one has the name, and returns the first such attribute. */
  lemma {:induction false} GetFindsFirst(attrs: seq<IppAttribute>, name: string)
    ensures FirstNamed(attrs, name).None? <==> forall j :: 0 <= j < |attrs| ==> attrs[j].name != name
    ensures FirstNamed(attrs, name).Some? ==>
      exists i :: 0 <= i < |attrs| && attrs[i] == FirstNamed(attrs, name).value &&
        attrs[i].name == name && forall j :: 0 <= j < i ==> attrs[j].name != name
  {
    if attrs != [] {
      GetFindsFirst(attrs[1..], name);
      if attrs[0].name == name {
        assert attrs[0] == FirstNamed(attrs, name).value;
      } else {
        assert forall j :: 1 <= j < |attrs| ==> attrs[j] == attrs[1..][j - 1];
        if FirstNamed(attrs[1..], name).Some? {
          var i :| 0 <= i < |attrs[1..]| && attrs[1..][i] == FirstNamed(attrs[1..], name).value &&
            attrs[1..][i].name == name && forall j :: 0 <= j < i ==> attrs[1..][j].name != name;
          assert attrs[i + 1] == FirstNamed(attrs, name).value;
        }
      }
    }
  }
}
