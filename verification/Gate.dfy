/** The injection gate: which content may reach the write path at all. */
module Gate {
  import opened Records
  import opened Environment

  /** Provenance decides first and reads no text; markers are a second, optional layer. */
  function Inspect(env: Env, text: string, source: Provenance): (v: GateVerdict)
    ensures v.decision == ALLOW <==> IsTrusted(source) && (env.scanTrusted ==> env.markers(text) == [])
    ensures v.decision == BLOCK_UNTRUSTED <==> !IsTrusted(source)
    ensures v.source == source
    ensures v.markers == if v.decision == BLOCK_INSTRUCTION then env.markers(text) else []
  {
    if !IsTrusted(source) then GateVerdict(BLOCK_UNTRUSTED, source, [])
    else if env.scanTrusted && env.markers(text) != [] then
      GateVerdict(BLOCK_INSTRUCTION, source, env.markers(text))
    else GateVerdict(ALLOW, source, [])
  }
}
