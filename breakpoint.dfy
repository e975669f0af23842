/**
 * The `breakpoint` object: the registry of per-source line tables, the
 * presence index over lines, the function resolution cache, and the hit
 * decision run on every line the VM executes.
 */
module Breakpoints {
  import opened Wrappers
  import opened Evaluation
  import opened Template
  import opened Descriptor
  import opened Registry
  import opened Resolution

  class Breakpoint {
    /** `files_`: tables of file-backed sources, by client path. */
    var files: map<string, Table>
    /** `memorys_`: tables of anonymous chunks, by source reference. */
    var memorys: map<int, Table>
    /** `fast_table_`: per line, the number of source tables with an entry there. */
    var fast: array<int>
    /** `functions_`: resolution cache, by function identity. */
    var functions: map<int, BpFunction>
    /** Everything sent to the debugger's "stdout" output channel, in order. */
    ghost var output: seq<string>

    function Reg(): Sources
      reads this
    {
      Sources(files, memorys)
    }

    ghost predicate Valid()
      reads this, fast
    {
      Indexed(Reg(), fast[..])
    }

    /** A breakpoint object with no sources and a zero-filled index of `size` slots. */
    constructor (size: nat)
      ensures Valid() && fresh(fast)
      ensures files == map[] && memorys == map[] && functions == map[] && output == []
      ensures fast[..] == seq(size, _ => 0)
    {
      files, memorys, functions := map[], map[], map[];
      output := [];
      fast := new int[size](_ => 0);
      new;
      EmptyIndexed(size);
      assert fast[..] == seq(size, _ => 0);
    }

    /** `clear()`: drops every table and empties the index; the resolution cache is kept. */
    method Clear()
      modifies this
      ensures Valid() && fresh(fast)
      ensures files == map[] && memorys == map[] && fast.Length == 0
      ensures functions == old(functions) && output == old(output)
    {
      files, memorys := map[], map[];
      fast := new int[0];
      EmptyIndexed(0);
      assert fast[..] == seq(0, _ => 0);
    }

    method Store(key: SourceKey, t: Table)
      modifies this
      ensures Reg() == Put(old(Reg()), key, t)
      ensures fast == old(fast) && functions == old(functions) && output == old(output)
    {
      match key
      case Path(p) => files := files[p := t];
      case Ref(r) => memorys := memorys[r := t];
    }

    /** `get_bp(clientpath)`: the table for a path, created empty if absent. */
    method GetBpPath(path: string) returns (t: Table)
      requires Valid()
      modifies this
      ensures Valid()
      ensures Reg() == Register(old(Reg()), Path(path)) && t == TableOf(old(Reg()), Path(path))
      ensures fast == old(fast) && functions == old(functions) && output == old(output)
    {
      RegisterKeepsIndexed(Reg(), fast[..], Path(path));
      if path !in files {
        files := files[path := map[]];
      }
      t := files[path];
    }

    /** `get_bp(sourceref)`: the table for a source reference, created empty if absent. */
    method GetBpRef(ref: int) returns (t: Table)
      requires Valid()
      modifies this
      ensures Valid()
      ensures Reg() == Register(old(Reg()), Ref(ref)) && t == TableOf(old(Reg()), Ref(ref))
      ensures fast == old(fast) && functions == old(functions) && output == old(output)
    {
      RegisterKeepsIndexed(Reg(), fast[..], Ref(ref));
      if ref !in memorys {
        memorys := memorys[ref := map[]];
      }
      t := memorys[ref];
    }

    /** The loop of `clear(bps)`: slot `l` of the index decremented once for each line `l` of the table. */
    method DropLines(lines: set<nat>)
      requires forall l :: l in lines ==> l < fast.Length
      modifies fast
      ensures fast[..] == Dropped(old(fast[..]), lines)
    {
      ghost var before := fast[..];
      var todo := lines;
      assert lines - todo == {};
      assert Dropped(before, {}) == before;
      while todo != {}
        invariant todo <= lines
        invariant fast[..] == Dropped(before, lines - todo)
        modifies fast
        decreases |todo|
      {
        var l :| l in todo;
        DroppedOneMore(before, lines - todo, l);
        fast[l] := fast[l] - 1;
        assert lines - (todo - {l}) == (lines - todo) + {l};
        todo := todo - {l};
      }
      assert lines - todo == lines;
    }

    /**
     * `clear(bps)`: decrements the slot of every line of a registered table
     * once, then empties the table; the source stays registered.
     */
    method ClearSource(key: SourceKey)
      requires Valid() && Registered(Reg(), key)
      modifies this, fast
      ensures Valid() && fast == old(fast)
      ensures Reg() == Put(old(Reg()), key, map[])
      ensures fast[..] == Dropped(old(fast[..]), old(TableOf(Reg(), key)).Keys)
      ensures functions == old(functions) && output == old(output)
    {
      var lines := TableOf(Reg(), key).Keys;
      ghost var before := fast[..];
      forall l | l in lines ensures l < fast.Length {
        PresentLineHasPositiveSlot(Reg(), before, key, l);
      }
      DropLines(lines);
      ClearKeepsIndexed(Reg(), before, key);
      Store(key, map[]);
    }

    /** `clear(client_path)`: clears that source's table if the path is registered, else changes nothing. */
    method ClearPath(path: string)
      requires Valid()
      modifies this, fast
      ensures Valid() && fast == old(fast)
      ensures path in old(files) ==>
                Reg() == Put(old(Reg()), Path(path), map[])
                && fast[..] == Dropped(old(fast[..]), old(files[path]).Keys)
      ensures path !in old(files) ==> Reg() == old(Reg()) && fast[..] == old(fast[..])
      ensures functions == old(functions) && output == old(output)
    {
      if path in files {
        ClearSource(Path(path));
      }
    }

    /** `clear(source_ref)`: clears that source's table if the reference is registered, else changes nothing. */
    method ClearRef(ref: int)
      requires Valid()
      modifies this, fast
      ensures Valid() && fast == old(fast)
      ensures ref in old(memorys) ==>
                Reg() == Put(old(Reg()), Ref(ref), map[])
                && fast[..] == Dropped(old(fast[..]), old(memorys[ref]).Keys)
      ensures ref !in old(memorys) ==> Reg() == old(Reg()) && fast[..] == old(fast[..])
      ensures functions == old(functions) && output == old(output)
    {
      if ref in memorys {
        ClearSource(Ref(ref));
      }
    }

    /** `resize(line + 1)` and `fill_n` of the new slots with zero, on an index that has no slot `line`. */
    method Grow(line: nat)
      requires line >= fast.Length
      modifies this
      ensures fresh(fast) && fast[..] == Grown(old(fast[..]), line)
      ensures Reg() == old(Reg()) && functions == old(functions) && output == old(output)
    {
      var oldsize, newsize := fast.Length, line + 1;
      var grown := new int[newsize];
      for i := 0 to oldsize
        invariant grown[..i] == fast[..i]
        modifies grown
      {
        grown[i] := fast[i];
      }
      for i := oldsize to newsize
        invariant grown[..oldsize] == fast[..]
        invariant forall k :: oldsize <= k < i ==> grown[k] == 0
        modifies grown
      {
        grown[i] := 0;
      }
      fast := grown;
    }

    /**
     * `add(bps, line, bpinfo)`: a line already present keeps its counter and
     * leaves the index alone; a new line starts at 0, grows the index to
     * `line + 1` slots when it has no slot, and bumps slot `line` by one.
     */
    method AddTo(key: SourceKey, line: nat, info: BpInfo)
      requires Valid() && Registered(Reg(), key)
      modifies this, fast
      ensures Valid()
      ensures Reg() == Put(old(Reg()), key, Upsert(old(TableOf(Reg(), key)), line, info))
      ensures line in old(TableOf(Reg(), key)) ==> fast == old(fast) && fast[..] == old(fast[..])
      ensures line !in old(TableOf(Reg(), key)) ==> fast[..] == Bumped(Grown(old(fast[..]), line), line)
      ensures line < old(fast.Length) ==> fast == old(fast)
      ensures line >= old(fast.Length) ==> fresh(fast)
      ensures functions == old(functions) && output == old(output)
    {
      var t := TableOf(Reg(), key);
      if line in t {
        ReplaceKeepsIndexed(Reg(), fast[..], key, line, MakeBp(info, t[line].hit));
        Store(key, t[line := MakeBp(info, t[line].hit)]);
        return;
      }
      var b := MakeBp(info, 0);
      ghost var before := fast[..];
      InsertKeepsIndexed(Reg(), before, key, line, b);
      Store(key, t[line := b]);
      if line >= fast.Length {
        Grow(line);
      }
      assert fast[..] == Grown(before, line);
      fast[line] := fast[line] + 1;
    }

    /** `add(client_path, line, bp)`: `add` on the path's table, created if needed. */
    method AddPath(path: string, line: nat, info: BpInfo)
      requires Valid()
      modifies this, fast
      ensures Valid()
      ensures Reg() == Put(old(Reg()), Path(path), Upsert(old(TableOf(Reg(), Path(path))), line, info))
      ensures line in old(TableOf(Reg(), Path(path))) ==> fast == old(fast) && fast[..] == old(fast[..])
      ensures line !in old(TableOf(Reg(), Path(path))) ==> fast[..] == Bumped(Grown(old(fast[..]), line), line)
      ensures line < old(fast.Length) ==> fast == old(fast)
      ensures line >= old(fast.Length) ==> fresh(fast)
      ensures functions == old(functions) && output == old(output)
    {
      var _ := GetBpPath(path);
      AddTo(Path(path), line, info);
      assert Reg().files == old(Reg()).files[path := Upsert(old(TableOf(Reg(), Path(path))), line, info)];
    }

    /** `add(source_ref, line, bp)`: `add` on the reference's table, created if needed. */
    method AddRef(ref: int, line: nat, info: BpInfo)
      requires Valid()
      modifies this, fast
      ensures Valid()
      ensures Reg() == Put(old(Reg()), Ref(ref), Upsert(old(TableOf(Reg(), Ref(ref))), line, info))
      ensures line in old(TableOf(Reg(), Ref(ref))) ==> fast == old(fast) && fast[..] == old(fast[..])
      ensures line !in old(TableOf(Reg(), Ref(ref))) ==> fast[..] == Bumped(Grown(old(fast[..]), line), line)
      ensures line < old(fast.Length) ==> fast == old(fast)
      ensures line >= old(fast.Length) ==> fresh(fast)
      ensures functions == old(functions) && output == old(output)
    {
      var _ := GetBpRef(ref);
      AddTo(Ref(ref), line, info);
      assert Reg().memorys == old(Reg()).memorys[ref := Upsert(old(TableOf(Reg(), Ref(ref))), line, info)];
    }

    /**
     * `has(src, line, L, ar)`: the fast reject on the index, the exact lookup
     * in the source's own table, then the decision of `Decide` on the
     * breakpoint found, whose counter is updated in place.
     */
    method Has(key: SourceKey, line: nat, eval: Evaluator) returns (r: bool)
      requires Valid()
      modifies this
      ensures Valid()
      ensures fast == old(fast) && functions == old(functions)
      ensures old(line >= fast.Length || fast[line] == 0) ==>
                !r && Reg() == old(Reg()) && output == old(output)
      ensures line !in old(TableOf(Reg(), key)) ==>
                !r && Reg() == old(Reg()) && output == old(output)
      ensures line in old(TableOf(Reg(), key)) ==>
                var b := old(TableOf(Reg(), key))[line];
                var v := Decide(eval, b);
                && r == v.pause
                && output == old(output) + v.emitted
                && Reg() == Put(old(Reg()), key, old(TableOf(Reg(), key))[line := b.(hit := v.hit)])
    {
      if line >= fast.Length || fast[line] == 0 {
        if line in TableOf(Reg(), key) {
          PresentLineHasPositiveSlot(Reg(), fast[..], key, line);
        }
        return false;
      }
      var t := TableOf(Reg(), key);
      if line !in t {
        return false;
      }
      var b := t[line];
      if b.cond != "" && !IsOk(eval, b.cond) {
        assert t[line := b.(hit := b.hit)] == t;
        PutOwnTable(Reg(), key);
        return false;
      }
      b := b.(hit := b.hit + 1);
      ReplaceKeepsIndexed(Reg(), fast[..], key, line, b);
      Store(key, t[line := b]);
      if b.hitcond != "" && !IsOk(eval, HitScript(b.hit, b.hitcond)) {
        return false;
      }
      if b.log != "" {
        var res := EvaluateLog(eval, b.log);
        output := output + [res];
        return false;
      }
      return true;
    }

    /** The `bp_function` constructor: resolves a source and creates the table it binds to. */
    method NewBpFunction(source: Option<SourceInfo>, convert: PathConvert) returns (fn: BpFunction)
      requires Valid()
      modifies this
      ensures Valid()
      ensures fn == Resolve(source, convert)
      ensures Reg() == if fn.bp.Some? then Register(old(Reg()), fn.bp.value) else old(Reg())
      ensures fast == old(fast) && functions == old(functions) && output == old(output)
    {
      fn := BpFunction("", 0, None);
      if source.None? {
        return;
      }
      var text := source.value.text;
      if |text| > 0 && (text[0] == '@' || text[0] == '=') {
        var clientpath := convert(text);
        if clientpath.Some? {
          var _ := GetBpPath(clientpath.value);
          fn := BpFunction(clientpath.value, 0, Some(Path(clientpath.value)));
        }
      } else {
        var sourceref := source.value.address;
        var _ := GetBpRef(sourceref);
        fn := BpFunction("", sourceref, Some(Ref(sourceref)));
      }
    }

    /**
     * `get_function`: the cached binding of the frame's function, resolved and
     * cached on first sight (a binding without a table is cached too); None
     * when the function cannot be identified or its binding has no table.
     */
    method GetFunction(frame: Frame, convert: PathConvert) returns (r: Option<BpFunction>)
      requires Valid()
      modifies this
      ensures Valid()
      ensures fast == old(fast) && output == old(output)
      ensures frame.func.None? ==> r.None? && Reg() == old(Reg()) && functions == old(functions)
      ensures frame.func.Some? && frame.func.value in old(functions) ==>
                var fn := old(functions)[frame.func.value];
                && functions == old(functions)
                && Reg() == old(Reg())
                && r == (if fn.bp.Some? then Some(fn) else None)
      ensures frame.func.Some? && frame.func.value !in old(functions) ==>
                var fn := Resolve(frame.source, convert);
                && functions == old(functions)[frame.func.value := fn]
                && Reg() == (if fn.bp.Some? then Register(old(Reg()), fn.bp.value) else old(Reg()))
                && r == (if fn.bp.Some? then Some(fn) else None)
    {
      if frame.func.None? {
        return None;
      }
      var f := frame.func.value;
      var fn: BpFunction;
      if f in functions {
        fn := functions[f];
      } else {
        fn := NewBpFunction(frame.source, convert);
        functions := functions[f := fn];
      }
      r := if fn.bp.Some? then Some(fn) else None;
    }
  }

  /**
   * The global `clear()` keeps `functions_`: a function resolved before it is
   * still answered from the cache afterwards, with a binding to a source whose
   * table no longer exists.
   */
  method StaleBindingAfterClear(convert: PathConvert) returns (b: Breakpoint, r: Option<BpFunction>)
    ensures r.Some? && r.value.bp.Some? && !Registered(b.Reg(), r.value.bp.value)
  {
    b := new Breakpoint(0);
    var frame := Frame(Some(1), Some(SourceInfo("return 1", 42)));
    var first := b.GetFunction(frame, convert);
    b.Clear();
    r := b.GetFunction(frame, convert);
  }
}
