/**
 The module index as the splitter receives it from the modulemd library:
 modules in the order `get_module_names` lists them, each with its streams in
 the order `get_all_streams` lists them, each stream with its NSVCA key and
 its declared RPM artifacts (NEVRA strings).
 */
module Modulemd {

  datatype Stream = Stream(nsvca: string, artifacts: seq<string>)

  datatype Module = Module(name: string, streams: seq<Stream>)

  /**
   What reading the module document reported: the `res` flag and the
   `failures` list of `update_from_string`, and the modules of the index
   after `upgrade_streams`.
   */
  datatype ParseOutcome = ParseOutcome(res: bool, failures: seq<string>, modules: seq<Module>)

  /** The streams of all modules, module by module, in enumeration order. */
  function AllStreams(ms: seq<Module>): (ss: seq<Stream>)
    ensures forall s :: s in ss <==> exists m :: m in ms && s in m.streams
  {
    if ms == [] then []
    else
      var init := ms[..|ms| - 1];
      assert ms == init + [ms[|ms| - 1]];
      AllStreams(init) + ms[|ms| - 1].streams
  }
}
