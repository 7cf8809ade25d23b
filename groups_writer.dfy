/**
 * `write_config`: replace the local group configuration by a given set of
 * groups. Reading and writing the file are not modelled: the file's present
 * contents are a parameter and the text it would be given is a result.
 */
module GroupsWriter {
  import opened Wrappers
  import Groups
  import LinkedSet
  import Config

  /**
   * Opens the local configuration, clears it, sets exactly `gs` and saves.
   * The outcome of saving is not looked at: the answer is always `Ok("")`,
   * and what was there before has no bearing on what is written.
   */
  method WriteConfig(localContents: Option<string>, gs: seq<Groups.Group>)
    returns (r: Result<string, string>, written: string)
    requires LinkedSet.Unique(gs, Groups.Key)
    ensures r == Success("")
    ensures written == Config.SavedText(gs)
  {
    var cfg := new Config.GroupsConfig(localContents);
    cfg.Clear();
    cfg.Set(gs);
    LinkedSet.InsertAllIntoEmpty(gs, Groups.Key);
    written := cfg.SaveText();
    r := Success("");
  }
}
