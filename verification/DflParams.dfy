/** DFHv1 parameter blocks of drivers/fpga/dfl.c: a chain of headers in device memory is sized, copied,
    and later searched by parameter id. */
module DflParams {
  import opened Common

  /** Device memory: the 64-bit word at each address. */
  type Mem = int -> nat

  const ENOENT: int := 2
  const PARAM_HDR: nat := 0x28
  const CSR_SIZE_GRP: nat := 0x20

  function ParamId(v: nat): nat { v % 0x1_0000 }

  predicate Eop(v: nat) { v / 0x1_0000_0000 % 2 == 1 }

  /** Offset of the next header, in 64-bit words. */
  function NextOffset(v: nat): nat { v / 0x8_0000_0000 }

  /** Word i of the parameter area that begins at base. */
  function Word(mem: Mem, base: int, i: nat): nat { mem(base + 8 * i) }

  predicate HasParams(v: nat) { v / 0x8000_0000 % 2 == 1 }

  /** The indices (in words) of the headers from index w on: each is NEXT_OFFSET words after the one
      before, up to a header with the end bit or no next offset. None if the chain leaves the region of
      `max` bytes before it ends. */
  function Chain(mem: Mem, base: int, w: nat, max: nat): (r: Option<seq<nat>>)
    ensures r.Some? ==> r.value != []
    decreases if 8 * w < max then max - 8 * w else 0
  {
    if 8 * w + PARAM_HDR >= max then None
    else
      var v := Word(mem, base, w);
      if NextOffset(v) == 0 || Eop(v) then Some([w])
      else
        var rest := Chain(mem, base, w + NextOffset(v), max);
        if rest.Some? then Some([w] + rest.value) else None
  }

  /** Words from a header to the end of its data; a header without a next offset is taken as two words. */
  function Span(v: nat): nat {
    if NextOffset(v) == 0 then 2 else NextOffset(v)
  }

  /** Size of the block in words: up to the end of the last header's data. */
  function BlockWords(mem: Mem, base: int, headers: seq<nat>): nat
    requires headers != []
  {
    var last := headers[|headers| - 1];
    last + Span(Word(mem, base, last))
  }

  function Prepend(done: seq<nat>, rest: Option<seq<nat>>): Option<seq<nat>> {
    if rest.Some? then Some(done + rest.value) else None
  }

  /** The copied block. */
  function Block(mem: Mem, base: int, words: nat): (p: seq<nat>)
    ensures |p| == words && forall i :: 0 <= i < words ==> p[i] == Word(mem, base, i)
  {
    seq(words, i requires 0 <= i => Word(mem, base, i))
  }

  lemma PrependNone(rest: Option<seq<nat>>)
    ensures Prepend([], rest) == rest
  {
    assert rest.Some? ==> [] + rest.value == rest.value;
  }

  /** The walk past one header. */
  lemma ChainStep(mem: Mem, base: int, w: nat, max: nat, done: seq<nat>)
    requires 8 * w + PARAM_HDR < max
    ensures var v := Word(mem, base, w); var all := Prepend(done, Chain(mem, base, w, max));
      if NextOffset(v) == 0 || Eop(v) then all == Some(done + [w]) && BlockWords(mem, base, done + [w]) == w + Span(v)
      else all == Prepend(done + [w], Chain(mem, base, w + NextOffset(v), max))
  {
    hide Eop; hide NextOffset; hide Span;
    var rest := Chain(mem, base, w + NextOffset(Word(mem, base, w)), max);
    assert rest.Some? ==> done + ([w] + rest.value) == done + [w] + rest.value;
  }

  lemma ChainEnds(mem: Mem, base: int, w: nat, max: nat, done: seq<nat>)
    requires 8 * w + PARAM_HDR >= max
    ensures Prepend(done, Chain(mem, base, w, max)) == None
  {
  }

  /** The sizing walk. Sizes are int in the source; a chain that wraps it is outside this model. */
  method DfhGetParamSize(mem: Mem, dfh: int, max: nat) returns (size: int)
    ensures !HasParams(mem(dfh + CSR_SIZE_GRP)) ==> size == 0
    ensures HasParams(mem(dfh + CSR_SIZE_GRP)) ==>
      var headers := Chain(mem, dfh + PARAM_HDR, 0, max);
      size == if headers.None? then -ENOENT else 8 * BlockWords(mem, dfh + PARAM_HDR, headers.value)
  {
    if !HasParams(mem(dfh + CSR_SIZE_GRP)) {
      return 0;
    }
    size := 0;
    ghost var base := dfh + PARAM_HDR;
    ghost var w: nat, done: seq<nat> := 0, [];
    ghost var all := Chain(mem, base, 0, max);
    PrependNone(all);
    hide ParamId; hide Eop; hide NextOffset; hide Prepend; hide Chain;
    while size + PARAM_HDR < max
      invariant size == 8 * w
      invariant all == Prepend(done, Chain(mem, base, w, max))
      decreases max - size
    {
      var v := mem(dfh + PARAM_HDR + size);
      assert v == Word(mem, base, w);
      ChainStep(mem, base, w, max, done);
      var next := NextOffset(v);
      if next == 0 {
        return size + 16;
      }
      size := size + next * 8;
      if Eop(v) {
        return;
      }
      done := done + [w];
      w := w + next;
    }
    ChainEnds(mem, base, w, max, done);
    size := -ENOENT;
  }

  /** A complete chain: ascending headers, each one Span words apart, only the last one final. */
  lemma {:induction false} ChainShape(mem: Mem, base: int, w: nat, max: nat)
    requires Chain(mem, base, w, max).Some?
    ensures var h := Chain(mem, base, w, max).value;
      h != [] && h[0] == w &&
      (forall k :: 0 <= k < |h| ==> 8 * h[k] + PARAM_HDR < max) &&
      (forall k :: 0 <= k < |h| - 1 ==>
        h[k + 1] == h[k] + Span(Word(mem, base, h[k])) && !Eop(Word(mem, base, h[k]))) &&
      (forall k :: 0 <= k < |h| ==> h[k] + Span(Word(mem, base, h[k])) <= BlockWords(mem, base, h))
    decreases if 8 * w < max then max - 8 * w else 0
  {
    hide NextOffset;
    hide Eop;
    var v := Word(mem, base, w);
    if !(NextOffset(v) == 0 || Eop(v)) {
      ChainShape(mem, base, w + NextOffset(v), max);
    }
  }

  /** The copy of a block whose sizing succeeded reads inside the feature exactly when the data of its last
      header does: that of the headers before it always does, and a last header without a next offset leaves
      it by less than two words. */
  lemma CopyInside(mem: Mem, base: int, max: nat)
    requires Chain(mem, base, 0, max).Some?
    ensures var h := Chain(mem, base, 0, max).value;
      var last, words := h[|h| - 1], BlockWords(mem, base, h);
      ((forall i :: 0 <= i < words ==> PARAM_HDR + 8 * i + 8 <= max) <==> InsideFeature(mem, base, last, max)) &&
      (forall k :: 0 <= k < |h| - 1 ==> InsideFeature(mem, base, h[k], max)) &&
      (NextOffset(Word(mem, base, last)) == 0 ==> PARAM_HDR + 8 * words < max + 16)
  {
    hide Eop; hide NextOffset;
    ChainShape(mem, base, 0, max);
    var h := Chain(mem, base, 0, max).value;
    var last, words := h[|h| - 1], BlockWords(mem, base, h);
    SpanPositive(Word(mem, base, last));
    if forall i :: 0 <= i < words ==> PARAM_HDR + 8 * i + 8 <= max {
      assert PARAM_HDR + 8 * (words - 1) + 8 <= max;
    }
    forall k | 0 <= k < |h| - 1
      ensures InsideFeature(mem, base, h[k], max)
    {
      assert h[k + 1] == h[k] + Span(Word(mem, base, h[k]));
    }
  }

  /** A header's data ends inside the feature. */
  predicate InsideFeature(mem: Mem, base: int, header: nat, max: nat) {
    PARAM_HDR + 8 * (header + Span(Word(mem, base, header))) <= max
  }

  /** A feature of 4 KiB whose only parameter claims 32 KiB of data: sizing accepts it. */
  lemma LastDataOutside() returns (mem: Mem)
    ensures HasParams(mem(CSR_SIZE_GRP)) && Chain(mem, PARAM_HDR, 0, 0x1000) == Some([0])
    ensures 8 * BlockWords(mem, PARAM_HDR, [0]) == 0x8000
  {
    mem := a => 0x8000_0000 + 0x1_0000_0000 + 0x8_0000_0000 * 0x1000;
  }

  /** Position of the first header of the chain with this id. */
  function FirstWithId(mem: Mem, base: int, headers: seq<nat>, id: nat): Option<nat> {
    if headers == [] then None
    else if ParamId(Word(mem, base, headers[0])) == id then Some(headers[0])
    else FirstWithId(mem, base, headers[1..], id)
  }

  /** Header number k is the first one with this id. */
  predicate FirstAt(mem: Mem, base: int, headers: seq<nat>, id: nat, k: nat) {
    k < |headers| && ParamId(Word(mem, base, headers[k])) == id &&
    forall j :: 0 <= j < k ==> ParamId(Word(mem, base, headers[j])) != id
  }

  lemma {:induction false} FirstIsFirst(mem: Mem, base: int, headers: seq<nat>, id: nat) returns (k: nat)
    ensures var r := FirstWithId(mem, base, headers, id);
      if r.Some? then FirstAt(mem, base, headers, id, k) && headers[k] == r.value
      else forall j :: 0 <= j < |headers| ==> ParamId(Word(mem, base, headers[j])) != id
  {
    hide ParamId;
    k := 0;
    if headers != [] && ParamId(Word(mem, base, headers[0])) != id {
      var rest := headers[1..];
      k := FirstIsFirst(mem, base, rest, id);
      k := k + 1;
      assert forall j :: 0 < j < |headers| ==> headers[j] == rest[j - 1];
    }
  }

  /** What the search loop finds from index i of a block. */
  function FindFrom(params: seq<nat>, i: nat, id: nat): (r: Option<nat>)
    ensures r.Some? ==> i <= r.value < |params|
    decreases if i < |params| then |params| - i else 0
  {
    if i >= |params| then None
    else if ParamId(params[i]) == id then Some(i)
    else if Eop(params[i]) || NextOffset(params[i]) == 0 then None
    else FindFrom(params, i + NextOffset(params[i]), id)
  }

  /** find_param: walks the copied block and returns the index of the header, or None. */
  method FindParam(params: seq<nat>, max: nat, id: nat) returns (r: Option<nat>)
    requires |params| == max / 8
    ensures r == FindFrom(params, 0, id)
  {
    var p, end := 0, max / 8;
    while p < end
      invariant FindFrom(params, 0, id) == FindFrom(params, p, id)
      decreases end - p
    {
      var v := params[p];
      if ParamId(v) == id {
        return Some(p);
      }
      if Eop(v) {
        break;
      }
      var next := NextOffset(v);
      if next == 0 {
        break;
      }
      p := p + next;
    }
    r := None;
  }

  /** dfh_find_param: where the data of a parameter starts in the block (in words) and its size in bytes. */
  method DfhFindParam(params: seq<nat>, max: nat, id: nat) returns (r: Option<(nat, nat)>)
    requires |params| == max / 8
    ensures r.None? <==> FindFrom(params, 0, id).None?
    ensures r.Some? ==> FindFrom(params, 0, id).value + 1 == r.value.0
    ensures r.Some? ==> r.value.1 == 8 * (Span(params[r.value.0 - 1]) - 1)
  {
    var phdr := FindParam(params, max, id);
    if phdr.None? {
      return None;
    }
    var next := NextOffset(params[phdr.value]);
    if next == 0 {
      next := 2;
    }
    r := Some((phdr.value + 1, (next - 1) * 8));
  }

  lemma SpanPositive(v: nat)
    ensures Span(v) > 0
  {
  }

  lemma {:induction false} SearchFollowsChain(mem: Mem, base: int, w: nat, max: nat, words: nat, id: nat)
    requires Chain(mem, base, w, max).Some?
    requires words == BlockWords(mem, base, Chain(mem, base, w, max).value)
    ensures FindFrom(Block(mem, base, words), w, id) == FirstWithId(mem, base, Chain(mem, base, w, max).value, id)
    decreases if 8 * w < max then max - 8 * w else 0
  {
    hide NextOffset;
    hide Eop;
    hide ParamId;
    hide Word;
    ChainShape(mem, base, w, max);
    var h := Chain(mem, base, w, max).value;
    var v := Word(mem, base, w);
    SpanPositive(v);
    assert h[0] == w && w < words;
    assert Block(mem, base, words)[w] == v;
    if NextOffset(v) == 0 || Eop(v) {
      assert h[1..] == [];
    } else {
      var rest := Chain(mem, base, w + NextOffset(v), max).value;
      assert h == [w] + rest && h[1..] == rest;
      assert rest[|rest| - 1] == h[|h| - 1];
      hide Block; hide Span;
      SearchFollowsChain(mem, base, w + NextOffset(v), max, words, id);
    }
  }

  /** When the sizing walk succeeds, searching the copied block returns the first header of the very same
      chain with the id, or nothing exactly when no header has it, and the data window it reports lies
      inside the block. */
  lemma SearchAgreesWithSizing(mem: Mem, dfh: int, max: nat, id: nat)
    requires HasParams(mem(dfh + CSR_SIZE_GRP)) && Chain(mem, dfh + PARAM_HDR, 0, max).Some?
    ensures var base := dfh + PARAM_HDR;
      var h := Chain(mem, base, 0, max).value;
      var words := BlockWords(mem, base, h);
      var r := FindFrom(Block(mem, base, words), 0, id);
      (r.None? ==> forall k :: 0 <= k < |h| ==> ParamId(Word(mem, base, h[k])) != id) &&
      (r.Some? ==> exists k: nat :: FirstAt(mem, base, h, id, k) && h[k] == r.value) &&
      (r.Some? ==> r.value + Span(Word(mem, base, r.value)) <= words)
  {
    hide NextOffset;
    hide Eop;
    hide ParamId;
    hide Chain;
    hide FindFrom;
    hide FirstWithId;
    hide HasParams;
    hide BlockWords;
    hide FirstAt;
    var base := dfh + PARAM_HDR;
    var h := Chain(mem, base, 0, max).value;
    ChainShape(mem, base, 0, max);
    SearchFollowsChain(mem, base, 0, max, BlockWords(mem, base, h), id);
    var k := FirstIsFirst(mem, base, h, id);
    if FirstWithId(mem, base, h, id).Some? {
      FirstInRange(mem, base, h, id, k);
    }
  }

  lemma FirstInRange(mem: Mem, base: int, headers: seq<nat>, id: nat, k: nat)
    requires FirstAt(mem, base, headers, id, k)
    ensures k < |headers|
  {
  }
}
