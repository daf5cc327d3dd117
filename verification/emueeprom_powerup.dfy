/** Power-up of the real driver: construct it over a flash backend and initialise it. */
module EmuPowerUp {
  import opened Prelude
  import opened EmuModel
  import EmuLog
  import opened EmuHwa
  import opened EmuDriver
  import opened EmuSteady
  import opened EmuRestart
  import opened EmuCrash

  /**
   Whatever bytes the backend holds, start-up leaves the object standing for `Recover` of them: exactly one
   runtime page valid, and, whenever the flash still carries some contents, steady with those contents.
   */
  method PowerUp(hwa: Hwa, pageSize: nat, writeBlockSize: nat, addresses: nat) returns (eeprom: EmuEeprom)
    requires hwa.Ok() && hwa.pageSize == pageSize && hwa.writeBlock == writeBlockSize && hwa.trace == []
    requires StaticAsserts(pageSize, writeBlockSize, addresses)
    modifies hwa, hwa.page1, hwa.page2, hwa.factory
    ensures eeprom.Valid() && eeprom.hwa == hwa && fresh(eeprom)
    ensures
      var g := eeprom.Geo();
      var f := old(hwa.Contents());
      && g.Valid() && SizedFlash(g, f)
      && eeprom.State() == Recover(g, f)
      && OneValidPage(eeprom.State())
      && forall c :: Holds(g, f, c) ==> Steady(eeprom.State()) && eeprom.State().cache == c
  {
    eeprom := new EmuEeprom(hwa, pageSize, writeBlockSize, addresses);
    ghost var g := eeprom.Geo();
    ghost var f := hwa.Contents();
    assert eeprom.State() == Fresh(g, f);
    eeprom.Init();
    Facts(g, f);
  }

  lemma Facts(g: EmuLog.Geometry, f: Flash)
    requires g.Valid() && SizedFlash(g, f)
    ensures OneValidPage(Recover(g, f))
    ensures forall c :: Holds(g, f, c) ==> Steady(Recover(g, f)) && Recover(g, f).cache == c
  {
    hide Recover, Holds, Steady;
    RepairArbitrary(g, f);
    forall c | Holds(g, f, c) ensures Steady(Recover(g, f)) && Recover(g, f).cache == c {
      RecoverHolds(g, f, c);
    }
  }
}
