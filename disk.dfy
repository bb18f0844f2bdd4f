/** What the sync scripts find on disk, as data: the text of each readable file, every path
    that exists (`Path.exists()`), and the posts whose image copy or output write raises. */
module Disk {
  import opened Wrappers

  datatype Files = Files(texts: map<string, string>, present: set<string>, failing: set<string>) {
    /** `read_text`, `None` when it raises. */
    function Read(p: string): (r: Option<string>)
      ensures r.Some? <==> p in texts
      ensures r.Some? ==> r.value == texts[p]
    {
      if p in texts then Some(texts[p]) else None
    }
  }
}
