/**
 * Function resolution (`bp_function`): which source table governs a running
 * function, decided from the source identifier the VM reports for it.
 */
module Resolution {
  import opened Wrappers
  import opened Registry

  /** What `lua_getinfo(L, "S", ar)` reports: the `source` string and the address it is stored at. */
  datatype SourceInfo = SourceInfo(text: string, address: int)

  /**
   * The frame as the engine can observe it: the identity of its function
   * (`lua_getinfo(L, "f", ar)` then `lua_topointer`), or None when that call
   * fails, and its source information, or None when that call fails.
   */
  datatype Frame = Frame(func: Option<int>, source: Option<SourceInfo>)

  /** The client path for a VM source name, when the path converter knows one. */
  type PathConvert = string -> Option<string>

  /** A resolved binding; `bp` is None where the source has no table (a null `bp_source*`). */
  datatype BpFunction = BpFunction(clientpath: string, sourceref: int, bp: Option<SourceKey>)

  /** Source names starting with `@` or `=` name files or labelled chunks; the rest are chunk text. */
  predicate FileBacked(text: string) {
    |text| > 0 && (text[0] == '@' || text[0] == '=')
  }

  /**
   * `bp_function::bp_function`: file-backed sources bind to the converted
   * client path, and to nothing when conversion fails; other sources bind to
   * the numeric reference that is the source string's address.
   */
  function Resolve(source: Option<SourceInfo>, convert: PathConvert): (fn: BpFunction)
    ensures source.None? ==> fn == BpFunction("", 0, None)
    ensures (fn.bp.Some? && fn.bp.value.Path?)
            <==> source.Some? && FileBacked(source.value.text) && convert(source.value.text).Some?
    ensures fn.bp.Some? && fn.bp.value.Path? ==>
              fn.bp.value.path == convert(source.value.text).value == fn.clientpath && fn.sourceref == 0
    ensures (fn.bp.Some? && fn.bp.value.Ref?) <==> source.Some? && !FileBacked(source.value.text)
    ensures fn.bp.Some? && fn.bp.value.Ref? ==>
              fn.bp.value.ref == source.value.address == fn.sourceref && fn.clientpath == ""
  {
    if source.None? then BpFunction("", 0, None)
    else if FileBacked(source.value.text) then
      match convert(source.value.text)
      case None => BpFunction("", 0, None)
      case Some(p) => BpFunction(p, 0, Some(Path(p)))
    else BpFunction("", source.value.address, Some(Ref(source.value.address)))
  }
}
