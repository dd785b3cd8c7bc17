/** Shapes: `expression/shape.py`. The codec of the rules and the walk of a rule over a store. */
module Shapes {
  import opened Common
  import opened ExprCodec

  const MAX_SHAPE_DEPTH := 128

  datatype Rule = Hold | Send | Pair(head: Rule, tail: Rule) | Repeat(head: Rule)

  // -------------------------------------------------------------------- the codec

  /** The bytes that `pair`, `repeat`, HOLD and SEND build. */
  function EncodeRule(rule: Rule): (b: Bytes)
    ensures |b| > 0
  {
    match rule
    case Hold => [0]
    case Send => [1]
    case Pair(head, tail) => [2] + EncodeRule(head) + EncodeRule(tail)
    case Repeat(head) => [3] + EncodeRule(head)
  }

  function Depth(rule: Rule): nat
  {
    match rule
    case Hold => 1
    case Send => 1
    case Pair(head, tail) => 1 + Max(Depth(head), Depth(tail))
    case Repeat(head) => 1 + Depth(head)
  }

  /** The inner `read`: a rule and the position after it. */
  function ReadRule(data: Bytes, pos: nat, depth: nat): (r: Result<(Rule, nat)>)
    requires pos <= |data|
    ensures r.Ok? ==> pos < r.value.1 <= |data|
    decreases |data| - pos
  {
    if depth > MAX_SHAPE_DEPTH then Err("shape is too deep")
    else if pos >= |data| then Err("shape is cut short")
    else if data[pos] == 0 then Ok((Hold, pos + 1))
    else if data[pos] == 1 then Ok((Send, pos + 1))
    else if data[pos] == 2 then
      var head := ReadRule(data, pos + 1, depth + 1);
      if head.Err? then head
      else
        var tail := ReadRule(data, head.value.1, depth + 1);
        if tail.Err? then tail else Ok((Pair(head.value.0, tail.value.0), tail.value.1))
    else if data[pos] == 3 then
      var head := ReadRule(data, pos + 1, depth + 1);
      if head.Err? then head else Ok((Repeat(head.value.0), head.value.1))
    else Err("unknown shape byte")
  }

  function ParseShape(data: Bytes): Result<Rule>
  {
    if data == [] then Err("shape is empty")
    else
      var r := ReadRule(data, 0, 1);
      if r.Err? then Err(r.reason)
      else if r.value.1 != |data| then Err("shape has bytes left over")
      else Ok(r.value.0)
  }

  /** One level of `ReadRule`. */
  lemma {:induction false} ReadHere(data: Bytes, pos: nat, depth: nat)
    requires pos < |data|
    ensures ReadRule(data, pos, depth).Ok? ==> data[pos] <= 3 && depth <= MAX_SHAPE_DEPTH
    ensures var r := ReadRule(data, pos, depth);
      if depth > MAX_SHAPE_DEPTH then r == Err("shape is too deep")
      else if data[pos] == 0 then r == Ok((Hold, pos + 1))
      else if data[pos] == 1 then r == Ok((Send, pos + 1))
      else
        var head := ReadRule(data, pos + 1, depth + 1);
        && (data[pos] == 3 ==> r == if head.Err? then head else Ok((Repeat(head.value.0), head.value.1)))
        && (data[pos] == 2 ==>
              if head.Err? then r == head
              else
                var tail := ReadRule(data, head.value.1, depth + 1);
                r == if tail.Err? then tail else Ok((Pair(head.value.0, tail.value.0), tail.value.1)))
  {
  }

  lemma {:induction false} Rejoin(data: Bytes, i: nat, j: nat, k: nat)
    requires i < j <= k <= |data|
    ensures data[i..k] == [data[i]] + data[i + 1..j] + data[j..k]
  {
  }

  lemma {:induction false} ReadInside(data: Bytes, pos: nat, depth: nat)
    requires pos <= |data|
    ensures ReadRule(data, pos, depth).Ok? ==> pos < |data|
  {
  }

  lemma {:induction false} FirstByte(rule: Rule)
    ensures EncodeRule(rule)[0] == match rule { case Hold => 0 case Send => 1 case Pair(_, _) => 2 case Repeat(_) => 3 }
    ensures rule.Hold? || rule.Send? ==> |EncodeRule(rule)| == 1
  {
  }

  /** The bytes of a rule, and how deep it is. */
  lemma {:induction false} RuleBytes(head: Rule, tail: Rule)
    ensures EncodeRule(Hold) == [0] && EncodeRule(Send) == [1]
    ensures EncodeRule(Pair(head, tail)) == [2] + EncodeRule(head) + EncodeRule(tail)
    ensures EncodeRule(Repeat(head)) == [3] + EncodeRule(head)
    ensures Depth(Hold) == Depth(Send) == 1 && Depth(Repeat(head)) == Depth(head) + 1
    ensures Depth(Pair(head, tail)) > Depth(head) && Depth(Pair(head, tail)) > Depth(tail)
    ensures Depth(Pair(head, tail)) == Depth(head) + 1 || Depth(Pair(head, tail)) == Depth(tail) + 1
  {
  }

  lemma {:induction false} PairParts(head: Rule, tail: Rule)
    ensures var (b, x, y) := (EncodeRule(Pair(head, tail)), EncodeRule(head), EncodeRule(tail));
      b == [2] + x + y && |b| == 1 + |x| + |y| && b[1..1 + |x|] == x && b[1 + |x|..1 + |x| + |y|] == y
  {
  }

  lemma {:induction false} RepeatParts(head: Rule)
    ensures var (b, x) := (EncodeRule(Repeat(head)), EncodeRule(head));
      b == [3] + x && |b| == 1 + |x| && b[1..1 + |x|] == x
  {
  }

  /** What reading an encoded rule gives: the rule, unless it reaches below the depth limit. */
  function Expected(rule: Rule, pos: nat, depth: nat): Result<(Rule, nat)>
  {
    if depth + Depth(rule) - 1 <= MAX_SHAPE_DEPTH then Ok((rule, pos + |EncodeRule(rule)|)) else Err("shape is too deep")
  }

  lemma {:induction false} ExpectedPair(head: Rule, tail: Rule, pos: nat, depth: nat)
    requires depth <= MAX_SHAPE_DEPTH
    ensures var h := Expected(head, pos + 1, depth + 1);
      Expected(Pair(head, tail), pos, depth)
      == if h.Err? then h
         else
           var t := Expected(tail, h.value.1, depth + 1);
           if t.Err? then t else Ok((Pair(h.value.0, t.value.0), t.value.1))
    ensures Expected(head, pos + 1, depth + 1).Ok? ==>
              Expected(head, pos + 1, depth + 1).value.1 == pos + 1 + |EncodeRule(head)|
  {
    hide EncodeRule;
    PairParts(head, tail);
  }

  lemma {:induction false} ExpectedOther(rule: Rule, pos: nat, depth: nat)
    requires !rule.Pair?
    ensures depth > MAX_SHAPE_DEPTH ==> Expected(rule, pos, depth) == Err("shape is too deep")
    ensures depth <= MAX_SHAPE_DEPTH && !rule.Repeat? ==> Expected(rule, pos, depth) == Ok((rule, pos + 1))
    ensures depth <= MAX_SHAPE_DEPTH && rule.Repeat? ==>
              Expected(rule, pos, depth)
              == var h := Expected(rule.head, pos + 1, depth + 1);
                 if h.Err? then h else Ok((Repeat(h.value.0), h.value.1))
  {
    hide EncodeRule;
    FirstByte(rule);
    if rule.Repeat? {
      RepeatParts(rule.head);
    }
  }

  /** Reading at a place where an encoded rule stands, inside longer data. */
  lemma {:induction false} ReadEncoded(data: Bytes, pos: nat, rule: Rule, depth: nat)
    requires pos + |EncodeRule(rule)| <= |data| && data[pos..pos + |EncodeRule(rule)|] == EncodeRule(rule)
    ensures ReadRule(data, pos, depth) == Expected(rule, pos, depth)
    decreases rule
  {
    hide ReadRule, EncodeRule, Expected;
    FirstByte(rule);
    var b := EncodeRule(rule);
    Part(data, pos, b, 0, 1);
    ReadHere(data, pos, depth);
    if !rule.Pair? {
      ExpectedOther(rule, pos, depth);
    }
    if depth > MAX_SHAPE_DEPTH {
      TooDeep(rule, pos, depth);
    } else if rule.Pair? {
      var (x, y) := (EncodeRule(rule.head), EncodeRule(rule.tail));
      PairParts(rule.head, rule.tail);
      Part(data, pos, b, 1, 1 + |x|);
      Part(data, pos, b, 1 + |x|, 1 + |x| + |y|);
      ReadEncoded(data, pos + 1, rule.head, depth + 1);
      ReadEncoded(data, pos + 1 + |x|, rule.tail, depth + 1);
      ExpectedPair(rule.head, rule.tail, pos, depth);
    } else if rule.Repeat? {
      var x := EncodeRule(rule.head);
      RepeatParts(rule.head);
      Part(data, pos, b, 1, 1 + |x|);
      ReadEncoded(data, pos + 1, rule.head, depth + 1);
    }
  }

  lemma {:induction false} TooDeep(rule: Rule, pos: nat, depth: nat)
    requires depth > MAX_SHAPE_DEPTH
    ensures Expected(rule, pos, depth) == Err("shape is too deep")
  {
  }

  lemma {:induction false} Part(data: Bytes, pos: nat, whole: Bytes, i: nat, j: nat)
    requires pos + |whole| <= |data| && data[pos..pos + |whole|] == whole && i <= j <= |whole|
    ensures data[pos + i..pos + j] == whole[i..j]
    ensures i < j ==> data[pos + i] == whole[i]
  {
    forall k | i <= k < j
      ensures data[pos + k] == whole[k]
    {
      assert data[pos..pos + |whole|][k] == data[pos + k];
    }
  }

  /** Whatever is read is the encoding of the rule that comes out. */
  lemma {:induction false} ReadIsEncoded(data: Bytes, pos: nat, depth: nat)
    requires pos <= |data|
    ensures var r := ReadRule(data, pos, depth);
      r.Ok? ==> data[pos..r.value.1] == EncodeRule(r.value.0) && depth + Depth(r.value.0) - 1 <= MAX_SHAPE_DEPTH
    decreases |data| - pos
  {
    hide ReadRule, EncodeRule;
    var r := ReadRule(data, pos, depth);
    if r.Ok? {
      ReadInside(data, pos, depth);
      ReadHere(data, pos, depth);
      FirstByte(r.value.0);
      FirstByte(Hold);
      FirstByte(Send);
      if data[pos] == 2 {
        ReadIsEncoded(data, pos + 1, depth + 1);
        var head := ReadRule(data, pos + 1, depth + 1).value;
        ReadIsEncoded(data, head.1, depth + 1);
        var tail := ReadRule(data, head.1, depth + 1).value;
        PairParts(head.0, tail.0);
        Rejoin(data, pos, head.1, tail.1);
      } else if data[pos] == 3 {
        ReadIsEncoded(data, pos + 1, depth + 1);
        RepeatParts(r.value.0.head);
        Rejoin(data, pos, r.value.1, r.value.1);
      }
    }
  }

  /** `parse_shape` is the exact inverse of `pair` and `repeat`, on rules up to the depth limit. */
  lemma {:induction false} ParseInvertsEncode(data: Bytes, rule: Rule)
    ensures ParseShape(data) == Ok(rule) <==> data == EncodeRule(rule) && Depth(rule) <= 128
  {
    if data == EncodeRule(rule) {
      ReadEncoded(data, 0, rule, 1);
    }
    if ParseShape(data) == Ok(rule) {
      ReadIsEncoded(data, 0, 1);
      assert data[0..|data|] == data;
    }
  }

  // --------------------------------------------------------------------- the walk

  type Store = map<Digest, Cell>

  /** No chain of links comes back to where it was: a link ranks above what it names. */
  ghost predicate Acyclic(store: Store, rank: Digest -> nat)
  {
    forall h :: h in store && store[h].LinkCell? ==> rank(store[h].head) < rank(h) && rank(store[h].tail) < rank(h)
  }

  /** A hash that the walk passes over: the zero hash, or a builtin type symbol. */
  predicate Skipped(known: set<Digest>, h: Digest) { h == ZERO32 || h in known }

  /** The meaning of a rule: every hash that it reaches, in preorder, with repetitions. */
  ghost function Reached(store: Store, known: set<Digest>, rule: Rule, h: Digest, rank: Digest -> nat): seq<Digest>
    requires Acyclic(store, rank)
    decreases rule, rank(h)
  {
    if rule.Hold? || Skipped(known, h) then []
    else if h !in store || rule.Send? || !store[h].LinkCell? then [h]
    else
      var c := store[h];
      var tailRule := if rule.Pair? then rule.tail else rule;
      [h] + Reached(store, known, rule.head, c.head, rank) + Reached(store, known, tailRule, c.tail, rank)
  }

  /** The first occurrences of the hashes that are (or are not) in the store, after those already listed. */
  ghost function FirstVisits(listed: seq<Digest>, trace: seq<Digest>, store: Store, present: bool): seq<Digest>
    decreases |trace|
  {
    if trace == [] then listed
    else
      var h := trace[0];
      FirstVisits(if (h in store) == present && h !in listed then listed + [h] else listed, trace[1..], store, present)
  }

  /** The rules that are still to be applied, top of the stack first. */
  ghost function Pending(store: Store, known: set<Digest>, stack: seq<(Rule, Digest)>, rank: Digest -> nat): seq<Digest>
    requires Acyclic(store, rank)
  {
    if stack == [] then []
    else
      var top := stack[|stack| - 1];
      Reached(store, known, top.0, top.1, rank) + Pending(store, known, stack[..|stack| - 1], rank)
  }

  /** How many stack entries a rule can still cause. */
  ghost function Weight(store: Store, rule: Rule, h: Digest, rank: Digest -> nat): (w: nat)
    requires Acyclic(store, rank)
    ensures w > 0
    decreases rule, rank(h)
  {
    if rule.Hold? || rule.Send? || h !in store || !store[h].LinkCell? then 1
    else
      var tailRule := if rule.Pair? then rule.tail else rule;
      1 + Weight(store, rule.head, store[h].head, rank) + Weight(store, tailRule, store[h].tail, rank)
  }

  ghost function StackWeight(store: Store, stack: seq<(Rule, Digest)>, rank: Digest -> nat): nat
    requires Acyclic(store, rank)
  {
    if stack == [] then 0
    else
      var top := stack[|stack| - 1];
      Weight(store, top.0, top.1, rank) + StackWeight(store, stack[..|stack| - 1], rank)
  }

  lemma {:induction false} VisitOne(listed: seq<Digest>, h: Digest, rest: seq<Digest>, store: Store, present: bool)
    ensures FirstVisits(listed, [h] + rest, store, present)
         == FirstVisits(if (h in store) == present && h !in listed then listed + [h] else listed, rest, store, present)
  {
    assert ([h] + rest)[1..] == rest;
  }

  lemma {:induction false} Pushed(store: Store, known: set<Digest>, stack: seq<(Rule, Digest)>, rule: Rule, h: Digest, rank: Digest -> nat)
    requires Acyclic(store, rank)
    ensures Pending(store, known, stack + [(rule, h)], rank) == Reached(store, known, rule, h, rank) + Pending(store, known, stack, rank)
    ensures StackWeight(store, stack + [(rule, h)], rank) == Weight(store, rule, h, rank) + StackWeight(store, stack, rank)
  {
    assert (stack + [(rule, h)])[..|stack|] == stack;
  }

  /**
   * `walk_shape`: the explicit stack visits exactly what the recursive meaning reaches; each hash
   * is found or reported missing once, where it is first reached. An expr is given by its hash.
   */
  method WalkShape(store: Store, known: set<Digest>, rule: Rule, root: Digest, ghost rank: Digest -> nat)
      returns (found: seq<Digest>, missing: seq<Digest>)
    requires Acyclic(store, rank)
    ensures found == FirstVisits([], Reached(store, known, rule, root, rank), store, true)
    ensures missing == FirstVisits([], Reached(store, known, rule, root, rank), store, false)
  {
    hide Pending, Reached, FirstVisits, StackWeight, Weight, NextStack, NextListed;
    found, missing := [], [];
    var stack := [(rule, root)];
    ghost var all := Reached(store, known, rule, root, rank);
    StackOfOne(store, known, rule, root, rank);
    while stack != []
      invariant FirstVisits(found, Pending(store, known, stack, rank), store, true) == FirstVisits([], all, store, true)
      invariant FirstVisits(missing, Pending(store, known, stack, rank), store, false) == FirstVisits([], all, store, false)
      decreases StackWeight(store, stack, rank)
    {
      var (current, h) := stack[|stack| - 1];
      var rest := stack[..|stack| - 1];
      assert stack == rest + [(current, h)];
      WalkStep(store, known, rest, current, h, rank, found, true);
      WalkStep(store, known, rest, current, h, rank, missing, false);
      StepResult(store, known, rest, current, h, found, missing);
      stack := rest;
      if current.Hold? || Skipped(known, h) {
        continue;
      }
      if h !in store {
        if h !in missing {
          missing := missing + [h];
        }
        continue;
      }
      if h !in found {
        found := found + [h];
      }
      var c := store[h];
      if current.Send? || !c.LinkCell? {
        continue;
      }
      stack := stack + [(if current.Pair? then current.tail else current, c.tail)];
      stack := stack + [(current.head, c.head)];
    }
    NothingPending(store, known, rank);
    FirstVisitsDone(found, store, true);
    FirstVisitsDone(missing, store, false);
  }

  lemma {:induction false} StackOfOne(store: Store, known: set<Digest>, rule: Rule, root: Digest, rank: Digest -> nat)
    requires Acyclic(store, rank)
    ensures Pending(store, known, [(rule, root)], rank) == Reached(store, known, rule, root, rank)
  {
    hide Reached;
    var stack := [(rule, root)];
    assert stack[..0] == [];
  }

  lemma {:induction false} NothingPending(store: Store, known: set<Digest>, rank: Digest -> nat)
    requires Acyclic(store, rank)
    ensures Pending(store, known, [], rank) == []
  {
  }

  /** The stack after one turn of the loop. */
  function NextStack(store: Store, known: set<Digest>, rest: seq<(Rule, Digest)>, rule: Rule, h: Digest): seq<(Rule, Digest)>
  {
    if rule.Hold? || rule.Send? || Skipped(known, h) || h !in store || !store[h].LinkCell? then rest
    else rest + [(if rule.Pair? then rule.tail else rule, store[h].tail)] + [(rule.head, store[h].head)]
  }

  function NextListed(store: Store, known: set<Digest>, rule: Rule, h: Digest, listed: seq<Digest>, present: bool): seq<Digest>
  {
    if !rule.Hold? && !Skipped(known, h) && (h in store) == present && h !in listed then listed + [h] else listed
  }

  lemma {:induction false} StepResult(store: Store, known: set<Digest>, rest: seq<(Rule, Digest)>, rule: Rule, h: Digest,
                                      found: seq<Digest>, missing: seq<Digest>)
    ensures rule.Hold? || Skipped(known, h) ==>
              NextStack(store, known, rest, rule, h) == rest
              && NextListed(store, known, rule, h, found, true) == found
              && NextListed(store, known, rule, h, missing, false) == missing
    ensures !rule.Hold? && !Skipped(known, h) && h !in store ==>
              NextStack(store, known, rest, rule, h) == rest
              && NextListed(store, known, rule, h, found, true) == found
              && NextListed(store, known, rule, h, missing, false) == if h in missing then missing else missing + [h]
    ensures !rule.Hold? && !Skipped(known, h) && h in store ==>
              NextListed(store, known, rule, h, found, true) == (if h in found then found else found + [h])
              && NextListed(store, known, rule, h, missing, false) == missing
              && NextStack(store, known, rest, rule, h)
              == if rule.Send? || !store[h].LinkCell? then rest
                 else rest + [(if rule.Pair? then rule.tail else rule, store[h].tail)] + [(rule.head, store[h].head)]
  {
  }

  /** One turn of the loop keeps what the whole walk will list, and lowers the weight of the stack. */
  lemma {:induction false} WalkStep(store: Store, known: set<Digest>, rest: seq<(Rule, Digest)>, rule: Rule, h: Digest,
                                    rank: Digest -> nat, listed: seq<Digest>, present: bool)
    requires Acyclic(store, rank)
    ensures FirstVisits(listed, Pending(store, known, rest + [(rule, h)], rank), store, present)
         == FirstVisits(NextListed(store, known, rule, h, listed, present),
                        Pending(store, known, NextStack(store, known, rest, rule, h), rank), store, present)
    ensures StackWeight(store, NextStack(store, known, rest, rule, h), rank) < StackWeight(store, rest + [(rule, h)], rank)
  {
    hide FirstVisits, Pending, StackWeight;
    if rule.Hold? || Skipped(known, h) {
      StepSkips(store, known, rest, rule, h, rank);
    } else {
      StepVisits(store, known, rest, rule, h, rank);
      VisitOne(listed, h, Pending(store, known, NextStack(store, known, rest, rule, h), rank), store, present);
    }
  }

  lemma {:induction false} StepSkips(store: Store, known: set<Digest>, rest: seq<(Rule, Digest)>, rule: Rule, h: Digest, rank: Digest -> nat)
    requires Acyclic(store, rank) && (rule.Hold? || Skipped(known, h))
    ensures Pending(store, known, rest + [(rule, h)], rank) == Pending(store, known, rest, rank)
    ensures StackWeight(store, rest, rank) < StackWeight(store, rest + [(rule, h)], rank)
  {
    hide Reached, Weight, Pending, StackWeight, Below;
    Pushed(store, known, rest, rule, h, rank);
    ReachedHere(store, known, rule, h, rank);
    assert [] + Pending(store, known, rest, rank) == Pending(store, known, rest, rank);
  }

  lemma {:induction false} StepVisits(store: Store, known: set<Digest>, rest: seq<(Rule, Digest)>, rule: Rule, h: Digest, rank: Digest -> nat)
    requires Acyclic(store, rank) && !rule.Hold? && !Skipped(known, h)
    ensures var next := NextStack(store, known, rest, rule, h);
      && Pending(store, known, rest + [(rule, h)], rank) == [h] + Pending(store, known, next, rank)
      && StackWeight(store, next, rank) < StackWeight(store, rest + [(rule, h)], rank)
  {
    hide Reached, Weight, Pending, StackWeight, Below, Skipped, Acyclic;
    var after := Pending(store, known, rest, rank);
    var below := Below(store, known, rule, h, rank);
    Pushed(store, known, rest, rule, h, rank);
    ReachedHere(store, known, rule, h, rank);
    BelowHere(store, known, rule, h, rank);
    Regroup([h], below, after);
    if h in store && !rule.Send? && store[h].LinkCell? {
      var c := store[h];
      var tailRule := if rule.Pair? then rule.tail else rule;
      Pushed(store, known, rest, tailRule, c.tail, rank);
      Pushed(store, known, rest + [(tailRule, c.tail)], rule.head, c.head, rank);
      Regroup(Reached(store, known, rule.head, c.head, rank), Reached(store, known, tailRule, c.tail, rank), after);
    } else {
      assert below + after == after;
    }
  }

  lemma {:induction false} Regroup(x: seq<Digest>, y: seq<Digest>, z: seq<Digest>)
    ensures x + y + z == x + (y + z)
  {
  }

  lemma {:induction false} BelowHere(store: Store, known: set<Digest>, rule: Rule, h: Digest, rank: Digest -> nat)
    requires Acyclic(store, rank) && !rule.Hold?
    ensures Below(store, known, rule, h, rank)
         == if h !in store || rule.Send? || !store[h].LinkCell? then []
            else Reached(store, known, rule.head, store[h].head, rank)
                 + Reached(store, known, if rule.Pair? then rule.tail else rule, store[h].tail, rank)
  {
  }

  lemma {:induction false} FirstVisitsDone(listed: seq<Digest>, store: Store, present: bool)
    ensures FirstVisits(listed, [], store, present) == listed
  {
  }

  /** What a rule reaches below the hash itself. */
  ghost function Below(store: Store, known: set<Digest>, rule: Rule, h: Digest, rank: Digest -> nat): seq<Digest>
    requires Acyclic(store, rank) && !rule.Hold?
  {
    if h !in store || rule.Send? || !store[h].LinkCell? then []
    else
      Reached(store, known, rule.head, store[h].head, rank)
      + Reached(store, known, if rule.Pair? then rule.tail else rule, store[h].tail, rank)
  }

  lemma {:induction false} ReachedHere(store: Store, known: set<Digest>, rule: Rule, h: Digest, rank: Digest -> nat)
    requires Acyclic(store, rank)
    ensures rule.Hold? || Skipped(known, h) ==> Reached(store, known, rule, h, rank) == []
    ensures !rule.Hold? && !Skipped(known, h) ==>
              Reached(store, known, rule, h, rank) == [h] + Below(store, known, rule, h, rank)
    ensures Weight(store, rule, h, rank) > 0
    ensures !rule.Hold? && !rule.Send? && h in store && store[h].LinkCell? ==>
              Weight(store, rule, h, rank) == 1 + Weight(store, rule.head, store[h].head, rank)
                + Weight(store, if rule.Pair? then rule.tail else rule, store[h].tail, rank)
  {
    if !rule.Hold? && !Skipped(known, h) && h in store && !rule.Send? && store[h].LinkCell? {
      var c := store[h];
      var tailRule := if rule.Pair? then rule.tail else rule;
      assert [h] + Reached(store, known, rule.head, c.head, rank) + Reached(store, known, tailRule, c.tail, rank)
          == [h] + (Reached(store, known, rule.head, c.head, rank) + Reached(store, known, tailRule, c.tail, rank));
    }
  }

  /** What the rules reach of a link r of two byte strings a and b, and in which order. */
  lemma {:induction false} RulesOnOneLink(r: Digest, a: Digest, b: Digest, rank: Digest -> nat)
    requires r != a && r != b && a != b && ZERO32 !in {r, a, b} && rank(a) < rank(r) && rank(b) < rank(r)
    ensures var store := map[r := LinkCell(a, b), a := BytesCell([1]), b := BytesCell([2])];
      && Acyclic(store, rank)
      && Reached(store, {}, Hold, r, rank) == [] && Reached(store, {}, Send, r, rank) == [r]
      && Reached(store, {}, Pair(Send, Send), r, rank) == [r, a, b]
      && Reached(store, {}, Pair(Hold, Send), r, rank) == [r, b] && Reached(store, {}, Pair(Send, Hold), r, rank) == [r, a]
      && Reached(store, {}, Repeat(Send), r, rank) == [r, a, b] && Reached(store, {}, Repeat(Hold), r, rank) == [r, b]
      && Reached(store, {b}, Repeat(Send), r, rank) == [r, a] && Reached(store, {r}, Send, r, rank) == []
  {
    var store := map[r := LinkCell(a, b), a := BytesCell([1]), b := BytesCell([2])];
    var rules: seq<Rule> := [Hold, Send, Repeat(Send), Repeat(Hold)];
    forall known: set<Digest>, i | 0 <= i < |rules|
      ensures Reached(store, known, rules[i], a, rank) == if i == 0 || a in known then [] else [a]
      ensures Reached(store, known, rules[i], b, rank) == if i == 0 || b in known then [] else [b]
    {
    }
    assert rules[0] == Hold && rules[1] == Send && rules[2] == Repeat(Send) && rules[3] == Repeat(Hold);
  }

  /** First visits list each hash once, and exactly the hashes of the trace on their side of the store. */
  lemma {:induction false} FirstVisitsAreTheTrace(listed: seq<Digest>, trace: seq<Digest>, store: Store, present: bool)
    requires Distinct(listed)
    ensures var visits := FirstVisits(listed, trace, store, present);
      && listed <= visits && Distinct(visits)
      && forall h :: h in visits <==> h in listed || (h in trace && (h in store) == present)
    decreases |trace|
  {
    if trace != [] {
      var h := trace[0];
      var next := if (h in store) == present && h !in listed then listed + [h] else listed;
      FirstVisitsAreTheTrace(next, trace[1..], store, present);
      assert trace == [h] + trace[1..];
    }
  }

  predicate Distinct(hashes: seq<Digest>) { forall i, j :: 0 <= i < j < |hashes| ==> hashes[i] != hashes[j] }
}
