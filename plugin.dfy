/** Plugin-wide helpers defined in the plugin's main file. */
module Plugin {
  import opened Php

  /**
   * Whether the site counts as a production install: a VIP environment
   * always does; "localhost", "127.0.0.1" and host names ending in
   * ".dev", ".test" or ".local" do not; every other host does.
   */
  function IsProduction(vip: bool, host: string): (r: bool)
    ensures vip ==> r
    ensures !vip && (host == "localhost" || host == "127.0.0.1") ==> !r
  {
    if vip then true
    else if host == "localhost" then false
    else if host == "127.0.0.1" then false
    else if TailChars(host, 4) == ".dev" then false
    else if TailChars(host, 5) == ".test" then false
    else if TailChars(host, 6) == ".local" then false
    else true
  }

  /** Outside VIP, a host is a production host exactly when it is neither a loopback name nor under a development suffix. */
  lemma {:induction false} IsProductionMeaning(host: string)
    ensures IsProduction(false, host) <==>
      (host != "localhost" && host != "127.0.0.1" &&
       !EndsWith(host, ".dev") && !EndsWith(host, ".test") && !EndsWith(host, ".local"))
  {
    TailCharsIsEndsWith(host, ".dev");
    TailCharsIsEndsWith(host, ".test");
    TailCharsIsEndsWith(host, ".local");
  }

  /** A development suffix makes any non-VIP host a non-production host, whatever precedes it. */
  lemma DevelopmentSuffix(name: string)
    ensures !IsProduction(false, name + ".dev")
    ensures !IsProduction(false, name + ".test")
    ensures !IsProduction(false, name + ".local")
  {
    IsProductionMeaning(name + ".dev");
    IsProductionMeaning(name + ".test");
    IsProductionMeaning(name + ".local");
    assert (name + ".dev")[|name|..] == ".dev";
    assert (name + ".test")[|name|..] == ".test";
    assert (name + ".local")[|name|..] == ".local";
  }
}
