/**
 * The parts of the ELF section header that the section garbage collector
 * looks at: the `sh_type` values of init/fini/preinit arrays and notes, the
 * `SHF_ALLOC` bit of `sh_flags` (System V ABI, chapter 4 "Sections"), and
 * the legacy constructor/destructor section names.
 */
module Elf {
  const SHT_NOTE: nat := 7
  const SHT_INIT_ARRAY: nat := 14
  const SHT_FINI_ARRAY: nat := 15
  const SHT_PREINIT_ARRAY: nat := 16

  const SHF_ALLOC: bv64 := 0x2

  /** The section types that hold constructor/destructor pointer arrays. */
  const InitFiniTypes: set<nat> := {SHT_INIT_ARRAY, SHT_FINI_ARRAY, SHT_PREINIT_ARRAY}

  /** Name prefixes of the legacy constructor/destructor/init/fini sections. */
  const LegacyPrefixes: set<string> := {".ctors", ".dtors", ".init", ".fini"}

  /** A section (or output section) is mapped into memory iff SHF_ALLOC is set. */
  predicate IsAlloc(shFlags: bv64) {
    shFlags & SHF_ALLOC != 0
  }

  predicate StartsWith(name: string, prefix: string) {
    prefix <= name
  }

  /**
   * `is_init_fini`: the section holds start-up or shut-down code pointers,
   * either by its type or by its traditional name.
   */
  function IsInitFini(shType: nat, name: string): (r: bool)
    ensures r <==> shType in InitFiniTypes || exists p :: p in LegacyPrefixes && StartsWith(name, p)
  {
    var r := shType == SHT_INIT_ARRAY ||
      shType == SHT_FINI_ARRAY ||
      shType == SHT_PREINIT_ARRAY ||
      StartsWith(name, ".ctors") ||
      StartsWith(name, ".dtors") ||
      StartsWith(name, ".init") ||
      StartsWith(name, ".fini");
    assert r ==> shType in InitFiniTypes || exists p :: p in LegacyPrefixes && StartsWith(name, p);
    r
  }

  /** Sections that are roots by their own header: init/fini arrays and notes. */
  predicate IsGcRootSection(shType: nat, name: string) {
    IsInitFini(shType, name) || shType == SHT_NOTE
  }
}
