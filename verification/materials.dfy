/**
 * Block types (Bukkit's `Material`). Only the types the plugin names are
 * distinguished; every other type is `Other`.
 */
module Materials {

  datatype Material =
    | Air | CaveAir | VoidAir
    | Glass | Stone | IronBlock | DiamondBlock | EmeraldBlock | GoldBlock | NetheriteBlock
    | Lava | Torch | Campfire | SoulCampfire | Fire
    | Furnace | BlastFurnace | Smoker | RedstoneBlock | Dispenser | Dropper | Chest
    | Other(id: nat)

  /** Bukkit's `Material.isAir`: the three air variants. */
  predicate IsAir(m: Material)
  {
    m == Air || m == CaveAir || m == VoidAir
  }
}
