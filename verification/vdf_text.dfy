/** The text form of VDF: TextParser and stringify_object of vdf_text.cpp. */
module VdfText {
  import opened Keys

  type Text = seq<Byte>

  /** A node: stringify_object prints numbers in decimal, parse makes strings and objects only. A finite float is kept
      as what std::to_string shows of it: its sign and its size in millionths. */
  datatype Value =
    | Str(s: Text)
    | Int(i: int)
    | Float(negative: bool, millionths: nat)
    | NonFinite(negative: bool, nan: bool)
    | Obj(m: map<Text, Value>)

  const QUOTE: Byte := 0x22
  const BACKSLASH: Byte := 0x5C
  const OPEN: Byte := 0x7B
  const CLOSE: Byte := 0x7D
  const SLASH: Byte := 0x2F
  const NEWLINE: Byte := 0x0A
  const TAB: Byte := 0x09

  /** std::isspace in the C locale. */
  predicate IsSpace(b: Byte) { b == 0x20 || 0x09 <= b <= 0x0D }

  // ---------------------------------------------------------------- the parser on bytes

  /** A result and where parsing stands; the exception; or a read past the end of the text. */
  datatype Result<T> = Ok(value: T, pos: nat) | Throws | Overrun

  predicate CommentAt(s: Text, i: nat) { i + 1 < |s| && s[i] == SLASH && s[i + 1] == SLASH }

  /** The newline that ends a comment, or the end of the text. */
  function LineEnd(s: Text, i: nat): (j: nat)
    requires i <= |s|
    ensures i <= j <= |s| && (j < |s| ==> s[j] == NEWLINE)
    ensures forall k :: i <= k < j ==> s[k] != NEWLINE
    decreases |s| - i
  {
    if i < |s| && s[i] != NEWLINE then LineEnd(s, i + 1) else i
  }

  /** Spaces and comments are skipped: up to the end or the first byte that is neither. */
  function SkipWs(s: Text, i: nat): (j: nat)
    requires i <= |s|
    ensures i <= j <= |s| && (j < |s| ==> !IsSpace(s[j]) && !CommentAt(s, j))
    decreases |s| - i
  {
    if i < |s| && IsSpace(s[i]) then SkipWs(s, i + 1)
    else if CommentAt(s, i) then SkipWs(s, LineEnd(s, i + 2))
    else i
  }

  /** The byte an escape stands for. */
  function Unescaped(n: Byte): Byte { if n == 0x6E then NEWLINE else if n == 0x74 then TAB else n }

  /** The rest of a string; one that is not closed ends with the text. */
  function Quoted(s: Text, i: nat, out: Text): (r: Result<Text>)
    requires i <= |s|
    ensures r.Ok? ==> i <= r.pos <= |s|
    decreases |s| - i
  {
    if i == |s| then Ok(out, i)
    else if s[i] == QUOTE then Ok(out, i + 1)
    else if s[i] != BACKSLASH then Quoted(s, i + 1, out + [s[i]])
    else if i + 1 == |s| then Overrun
    else Quoted(s, i + 2, out + [Unescaped(s[i + 1])])
  }

  function StringAt(s: Text, i: nat): (r: Result<Text>)
    requires i <= |s|
    ensures r.Ok? ==> i < r.pos <= |s|
  {
    var j := SkipWs(s, i);
    if j == |s| then Overrun else if s[j] != QUOTE then Throws else Quoted(s, j + 1, [])
  }

  /** A key and its value, put into the object m. */
  function MemberAt(s: Text, i: nat, m: map<Text, Value>): (r: Result<map<Text, Value>>)
    requires i <= |s|
    ensures r.Ok? ==> i < r.pos <= |s|
    decreases |s| - i, 0
  {
    var key := StringAt(s, i);
    if key.Throws? then Throws else if key.Overrun? then Overrun else
    var j := SkipWs(s, key.pos);
    if j == |s| then Overrun
    else if s[j] == OPEN then
      var sub := ObjectAt(s, j + 1, map[]);
      if sub.Ok? then Ok(m[key.value := Obj(sub.value)], sub.pos) else sub
    else
      var val := StringAt(s, j);
      if val.Throws? then Throws else if val.Overrun? then Overrun else Ok(m[key.value := Str(val.value)], val.pos)
  }

  /** The loop of parse_object. */
  function ObjectAt(s: Text, i: nat, m: map<Text, Value>): (r: Result<map<Text, Value>>)
    requires i <= |s|
    ensures r.Ok? ==> i < r.pos <= |s|
    decreases |s| - i, 1
  {
    var j := SkipWs(s, i);
    if j == |s| then Overrun
    else if s[j] == CLOSE then Ok(m, j + 1)
    else
      var r := MemberAt(s, j, m);
      if r.Ok? then ObjectAt(s, r.pos, r.value) else r
  }

  /** The loop of parse. */
  function RootAt(s: Text, i: nat, m: map<Text, Value>): (r: Result<map<Text, Value>>)
    requires i <= |s|
    ensures r.Ok? ==> r.pos == |s|
    decreases |s| - i
  {
    var j := SkipWs(s, i);
    if j == |s| then Ok(m, j)
    else
      var r := MemberAt(s, j, m);
      if r.Ok? then RootAt(s, r.pos, r.value) else r
  }

  class TextParser {
    const input: Text
    var pos: nat

    ghost predicate Valid()
      reads this
    {
      pos <= |input|
    }

    constructor (s: Text)
      ensures Valid() && input == s && pos == 0
    {
      input, pos := s, 0;
    }

    predicate Eof()
      reads this
    {
      pos >= |input|
    }

    method SkipSpaces()
      requires Valid()
      modifies this`pos
      ensures Valid() && pos == SkipWs(input, old(pos))
      decreases |input| - pos
    {
      while !Eof() && IsSpace(input[pos])
        invariant old(pos) <= pos && Valid() && SkipWs(input, pos) == SkipWs(input, old(pos))
        decreases |input| - pos
      {
        pos := pos + 1;
      }
      if !Eof() && input[pos] == SLASH && pos + 1 < |input| && input[pos + 1] == SLASH {
        ghost var at := pos;
        assert input[pos] != NEWLINE && input[pos + 1] != NEWLINE;
        assert LineEnd(input, at) == LineEnd(input, at + 2);
        while !Eof() && input[pos] != NEWLINE
          invariant at <= pos && Valid() && LineEnd(input, pos) == LineEnd(input, at)
          decreases |input| - pos
        {
          pos := pos + 1;
        }
        SkipSpaces();
      }
    }

    /** parse_string: the string and whether it was read, the exception or a read past the end otherwise. */
    method ParseString() returns (r: Result<Text>)
      requires Valid()
      modifies this`pos
      ensures Valid() && r == StringAt(input, old(pos)) && (r.Ok? ==> pos == r.pos)
    {
      SkipSpaces();
      if Eof() { return Overrun; }
      var first := input[pos];
      pos := pos + 1;
      if first != QUOTE { return Throws; }
      var out := [];
      ghost var start := pos;
      while !Eof()
        invariant Valid() && start <= pos && Quoted(input, pos, out) == Quoted(input, start, [])
        decreases |input| - pos
      {
        var c := input[pos];
        pos := pos + 1;
        if c == QUOTE { return Ok(out, pos); }
        if c == BACKSLASH {
          if Eof() { return Overrun; }
          var n := input[pos];
          pos := pos + 1;
          if n == 0x6E { out := out + [NEWLINE]; }
          else if n == 0x74 { out := out + [TAB]; }
          else { out := out + [n]; }
        } else {
          out := out + [c];
        }
      }
      return Ok(out, pos);
    }

    /** One round of either loop, behind the spaces: key, then an object or a string. */
    method ParseMember(obj0: map<Text, Value>) returns (r: Result<map<Text, Value>>)
      requires Valid()
      modifies this`pos
      ensures Valid() && r == MemberAt(input, old(pos), obj0) && (r.Ok? ==> pos == r.pos)
      decreases |input| - pos, 0
    {
      hide StringAt, SkipWs, ObjectAt;
      var key := ParseString();
      if key.Throws? { return Throws; }
      if key.Overrun? { return Overrun; }
      SkipSpaces();
      if Eof() { return Overrun; }
      if input[pos] == OPEN {
        pos := pos + 1;
        var sub := ParseObject();
        if !sub.Ok? { return sub; }
        return Ok(obj0[key.value := Obj(sub.value)], pos);
      }
      var val := ParseString();
      if val.Throws? { return Throws; }
      if val.Overrun? { return Overrun; }
      return Ok(obj0[key.value := Str(val.value)], pos);
    }

    method ParseObject() returns (r: Result<map<Text, Value>>)
      requires Valid()
      modifies this`pos
      ensures Valid() && r == ObjectAt(input, old(pos), map[]) && (r.Ok? ==> pos == r.pos)
      decreases |input| - pos, 1
    {
      hide MemberAt, SkipWs;
      var obj: map<Text, Value> := map[];
      while true
        invariant Valid() && old(pos) <= pos && ObjectAt(input, pos, obj) == ObjectAt(input, old(pos), map[])
        decreases |input| - pos
      {
        SkipSpaces();
        if Eof() { return Overrun; }
        if input[pos] == CLOSE {
          pos := pos + 1;
          return Ok(obj, pos);
        }
        r := ParseMember(obj);
        if !r.Ok? { return r; }
        obj := r.value;
      }
    }

    method Parse() returns (r: Result<map<Text, Value>>)
      requires Valid() && pos == 0
      modifies this`pos
      ensures Valid() && r == RootAt(input, 0, map[])
    {
      hide MemberAt, SkipWs;
      var root: map<Text, Value> := map[];
      while !Eof()
        invariant Valid() && RootAt(input, pos, root) == RootAt(input, 0, map[])
        decreases |input| - pos
      {
        SkipSpaces();
        if Eof() { break; }
        r := ParseMember(root);
        if !r.Ok? { return r; }
        root := r.value;
      }
      EndOfText(input);
      return Ok(root, pos);
    }

    static lemma EndOfText(s: Text)
      ensures SkipWs(s, |s|) == |s|
    {}
  }
}
