/**
 * Reading the instance list from the already-parsed sections of the
 * configuration file: a section without a non-empty `id` is skipped, the
 * section name becomes the display name, and `user` defaults to `ec2-user`.
 */
module Configs {
  import opened Wrappers
  import opened OrderedMaps
  import opened Instances

  /** One parsed section: its name and its key/value options. */
  datatype Section = Section(name: string, options: map<string, string>)

  const DefaultUser: string := "ec2-user"

  /** The section names instance `k`. */
  predicate Declares(s: Section, k: string)
  {
    "id" in s.options && s.options["id"] == k && k != ""
  }

  /** The configuration a section describes, or None when it names no instance. */
  function SectionConfig(s: Section): (r: Option<InstanceConfig>)
    ensures r.None? <==> !("id" in s.options && s.options["id"] != "")
    ensures r.Some? ==> Declares(s, r.value.id)
    ensures r.Some? ==> r.value.displayName == s.name
    ensures r.Some? && "user" in s.options ==> r.value.user == s.options["user"]
    ensures r.Some? && "user" !in s.options ==> r.value.user == DefaultUser
    ensures r.Some? && "directory" in s.options ==> r.value.directory == Some(s.options["directory"])
    ensures r.Some? && "directory" !in s.options ==> r.value.directory.None?
  {
    if "id" in s.options && s.options["id"] != "" then
      Some(InstanceConfig(
        id := s.options["id"],
        displayName := s.name,
        user := if "user" in s.options then s.options["user"] else DefaultUser,
        directory := if "directory" in s.options then Some(s.options["directory"]) else None))
    else None
  }

  /** The instance collection the sections describe, each section in turn assigned under its id. */
  function ConfigsOf(sections: seq<Section>): (r: OrderedMap<InstanceConfig>)
    ensures Valid(r)
    decreases |sections|
  {
    if sections == [] then Empty()
    else
      var prefix := ConfigsOf(sections[..|sections| - 1]);
      match SectionConfig(sections[|sections| - 1])
      case None => prefix
      case Some(c) => Put(prefix, c.id, c)
  }

  /** The loop over the sections that fills the collection. */
  method LoadConfigs(sections: seq<Section>) returns (instances: OrderedMap<InstanceConfig>)
    ensures instances == ConfigsOf(sections)
  {
    instances := Empty();
    var i := 0;
    while i < |sections|
      invariant 0 <= i <= |sections|
      invariant instances == ConfigsOf(sections[..i])
    {
      assert sections[..i + 1][..i] == sections[..i];
      var section := sections[i];
      var config := SectionConfig(section);
      if config.Some? {
        instances := Put(instances, config.value.id, config.value);
      }
      i := i + 1;
    }
    assert sections[..i] == sections;
  }

  /** An instance is configured exactly when some section names it. */
  lemma {:induction false} ConfigsOfKeys(sections: seq<Section>, k: string)
    ensures k in ConfigsOf(sections).entries <==>
              exists i :: 0 <= i < |sections| && Declares(sections[i], k)
    decreases |sections|
  {
    if sections != [] {
      var init := sections[..|sections| - 1];
      ConfigsOfKeys(init, k);
      assert forall i :: 0 <= i < |init| ==> init[i] == sections[i];
      if k in ConfigsOf(sections).entries && !(k in ConfigsOf(init).entries) {
        assert Declares(sections[|sections| - 1], k);
      }
    }
  }

  /** A configured instance's entry is filed under its own id, and the empty id is never configured. */
  lemma {:induction false} ConfigsOfIds(sections: seq<Section>)
    ensures "" !in ConfigsOf(sections).entries
    ensures forall k :: k in ConfigsOf(sections).entries ==> ConfigsOf(sections).entries[k].id == k
    decreases |sections|
  {
    if sections != [] {
      ConfigsOfIds(sections[..|sections| - 1]);
    }
  }

  /**
   * When several sections name one instance, the last of them supplies its
   * configuration.
   */
  lemma {:induction false} ConfigsOfLastSection(sections: seq<Section>, i: nat, k: string)
    requires i < |sections| && Declares(sections[i], k)
    requires forall j :: i < j < |sections| ==> !Declares(sections[j], k)
    ensures k in ConfigsOf(sections).entries
    ensures ConfigsOf(sections).entries[k] == SectionConfig(sections[i]).value
    decreases |sections|
  {
    var init := sections[..|sections| - 1];
    if i < |sections| - 1 {
      assert init[i] == sections[i];
      ConfigsOfLastSection(init, i, k);
    }
  }
}
