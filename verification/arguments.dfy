/** The argument model: optional flags, values and lists, and required values
    and lists. A value argument holds at most one converted token, a list
    argument an ordered sequence of them. Conversion from token text to the
    payload type is a parameter `conv`, generic in the payload type `V`. */
module Arguments {
  import opened Results

  /** A command-line token, as the text of one `argv` entry. */
  type Token = string

  /** The largest `size_t` on a 64-bit platform: the arity of a list argument,
      meaning "unbounded". */
  const SizeMax: nat := 0xFFFF_FFFF_FFFF_FFFF

  /** A C `int`: the type of the token count handed to a consumer. */
  type CInt = x: int | -0x8000_0000 <= x <= 0x7FFF_FFFF

  /** The typed payload of a value or list argument. `Value(None)` is the
      not-yet-parsed state (`std::monostate`). */
  datatype Holder<V> = Value(slot: Option<V>) | List(items: seq<V>)

  /** An optional argument is a flag (no payload in this model) or carries a
      value or list payload. */
  datatype OptionalKind<V> = Flag | Data(holder: Holder<V>)

  /** An optional argument: short character, long name, description, payload. */
  datatype OptionalSpec<V> = OptionalSpec(short: char, long: string, desc: string, kind: OptionalKind<V>)

  /** A required (positional) argument: name, description, payload. */
  datatype RequiredSpec<V> = RequiredSpec(name: string, desc: string, holder: Holder<V>)

  /** The state after a consumer ran, and the count it returned (`-1` on failure). */
  datatype Step<S> = Step(state: S, taken: int)

  /** The lesser of `a` and `b`. */
  function Min(a: int, b: int): (m: int)
    ensures m <= a && m <= b && (m == a || m == b)
  {
    if a <= b then a else b
  }

  /** A value argument before any token was consumed. */
  function NewValue<V>(): (h: Holder<V>)
    ensures h.Value? && GetValue(h) == None
  {
    Value(None)
  }

  /** A list argument before any token was consumed. */
  function NewList<V>(): (h: Holder<V>)
    ensures h.List? && GetValues(h) == []
  {
    List([])
  }

  /** The stored value of a value argument, or `None` while nothing was
      parsed. Nothing of the argument's state is hidden from the getter: the
      argument is rebuilt from what it returns. */
  function GetValue<V>(h: Holder<V>): (v: Option<V>)
    requires h.Value?
    ensures Value(v) == h
  {
    h.slot
  }

  /** The accumulated values of a list argument, in the order consumed. The
      argument is rebuilt from what the getter returns. */
  function GetValues<V>(h: Holder<V>): (vs: seq<V>)
    requires h.List?
    ensures List(vs) == h
  {
    h.items
  }

  /** How many tokens the argument is willing to take: exactly one for a
      value, and for a list more than any token count a caller can offer. */
  function Takes<V>(h: Holder<V>): (n: nat)
    ensures h.Value? <==> n == 1
    ensures h.List? ==> n == SizeMax && 0x7FFF_FFFF < n
  {
    match h
    case Value(_) => 1
    case List(_) => SizeMax
  }

  /** The conversions of `toks`, one per token, in order. */
  function ConvertAll<V>(toks: seq<Token>, conv: Token -> V): (r: seq<V>)
    ensures |r| == |toks|
    ensures forall i :: 0 <= i < |toks| ==> r[i] == conv(toks[i])
  {
    if toks == [] then [] else [conv(toks[0])] + ConvertAll(toks[1..], conv)
  }

  /** The value consumer: stores the conversion of the first of `len` tokens
      and reports one token taken; with no token it fails and stores nothing. */
  function ConsumeValue<V>(h: Holder<V>, argv: seq<Token>, len: CInt, conv: Token -> V): (r: Step<Holder<V>>)
    requires h.Value? && len <= |argv|
    ensures r.state.Value?
    ensures r.taken == -1 <==> len < 1
    ensures len < 1 ==> r.state == h
    ensures len >= 1 ==> r.taken == 1 && GetValue(r.state) == Some(conv(argv[0]))
  {
    if len < 1 then Step(h, -1) else Step(Value(Some(conv(argv[0]))), 1)
  }

  /** The list consumer: appends the conversions of all `len` tokens after the
      values already held and reports `len` tokens taken; with no token it
      fails and appends nothing. */
  function ConsumeList<V>(h: Holder<V>, argv: seq<Token>, len: CInt, conv: Token -> V): (r: Step<Holder<V>>)
    requires h.List? && len <= |argv|
    ensures r.state.List?
    ensures r.taken == -1 <==> len < 1
    ensures len < 1 ==> r.state == h
    ensures len >= 1 ==> r.taken == len
    ensures len >= 1 ==> |GetValues(r.state)| == |GetValues(h)| + len
    ensures len >= 1 ==> GetValues(r.state)[..|GetValues(h)|] == GetValues(h)
    ensures len >= 1 ==> forall i :: 0 <= i < len ==> GetValues(r.state)[|GetValues(h)| + i] == conv(argv[i])
  {
    if len < 1 then Step(h, -1) else Step(List(h.items + ConvertAll(argv[..len], conv)), len)
  }

  /** Dispatch on the payload kind, as the virtual `parse` does. The count
      taken is `-1` without tokens and otherwise the lesser of the tokens
      offered and the argument's arity. */
  function Consume<V>(h: Holder<V>, argv: seq<Token>, len: CInt, conv: Token -> V): (r: Step<Holder<V>>)
    requires len <= |argv|
    ensures r.state.Value? == h.Value?
    ensures r.taken == (if len < 1 then -1 else Min(len, Takes(h)))
    ensures 1 <= r.taken ==> r.taken <= len
    ensures h.Value? && len >= 1 ==> GetValue(r.state) == Some(conv(argv[0]))
    ensures h.List? && len >= 1 ==> GetValues(r.state) == GetValues(h) + ConvertAll(argv[..len], conv)
  {
    match h
    case Value(_) => ConsumeValue(h, argv, len, conv)
    case List(_) => ConsumeList(h, argv, len, conv)
  }

  /** Parsing an optional value or list argument updates its payload and
      nothing else: its short character and long name stay as registered. */
  function ConsumeOptional<V>(o: OptionalSpec<V>, argv: seq<Token>, len: CInt, conv: Token -> V): (r: Step<OptionalSpec<V>>)
    requires o.kind.Data? && len <= |argv|
    ensures r.state.short == o.short && r.state.long == o.long && r.state.desc == o.desc
    ensures r.state.kind.Data? && r.state.kind.holder.Value? == o.kind.holder.Value?
    ensures r.taken == (if len < 1 then -1 else Min(len, Takes(o.kind.holder)))
    ensures len < 1 ==> r.state == o
    ensures o.kind.holder.Value? && len >= 1 ==> GetValue(r.state.kind.holder) == Some(conv(argv[0]))
    ensures o.kind.holder.List? && len >= 1 ==>
              GetValues(r.state.kind.holder) == GetValues(o.kind.holder) + ConvertAll(argv[..len], conv)
  {
    var s := Consume(o.kind.holder, argv, len, conv);
    Step(o.(kind := Data(s.state)), s.taken)
  }

  /** Parsing a required value or list argument updates its payload and
      nothing else: its name stays as registered. */
  function ConsumeRequired<V>(a: RequiredSpec<V>, argv: seq<Token>, len: CInt, conv: Token -> V): (r: Step<RequiredSpec<V>>)
    requires len <= |argv|
    ensures r.state.name == a.name && r.state.desc == a.desc
    ensures r.state.holder.Value? == a.holder.Value?
    ensures r.taken == (if len < 1 then -1 else Min(len, Takes(a.holder)))
    ensures len < 1 ==> r.state == a
    ensures a.holder.Value? && len >= 1 ==> GetValue(r.state.holder) == Some(conv(argv[0]))
    ensures a.holder.List? && len >= 1 ==>
              GetValues(r.state.holder) == GetValues(a.holder) + ConvertAll(argv[..len], conv)
  {
    var s := Consume(a.holder, argv, len, conv);
    Step(a.(holder := s.state), s.taken)
  }

  /** Repeated parsing of a list argument accumulates: two calls append the
      same values as one call over both token runs. */
  lemma ListAccumulates<V>(h: Holder<V>, a: seq<Token>, la: CInt, b: seq<Token>, lb: CInt, conv: Token -> V)
    requires h.List? && 1 <= la <= |a| && 1 <= lb <= |b| && la + lb <= 0x7FFF_FFFF
    ensures GetValues(ConsumeList(ConsumeList(h, a, la, conv).state, b, lb, conv).state)
         == GetValues(ConsumeList(h, a[..la] + b[..lb], la + lb, conv).state)
  {
  }

  /** A value argument keeps only the most recent token: parsing it again
      discards whatever it held before. */
  lemma ValueLastWins<V>(h: Holder<V>, a: seq<Token>, la: CInt, b: seq<Token>, lb: CInt, conv: Token -> V)
    requires h.Value? && 1 <= la <= |a| && 1 <= lb <= |b|
    ensures GetValue(ConsumeValue(ConsumeValue(h, a, la, conv).state, b, lb, conv).state) == Some(conv(b[0]))
    ensures ConsumeValue(ConsumeValue(h, a, la, conv).state, b, lb, conv) == ConsumeValue(NewValue(), b, lb, conv)
  {
  }
}
