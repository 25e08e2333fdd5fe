/** The accepted prefixes: the literals of the Phase 2 and Phase 3 prefix modules. */
module AcceptedPrefixes {
  import opened Text
  import opened Migrations
  import opened Prefix

  /** (name after the number, accepted SHA-256) of 0000 to 0052. */
  const PHASE2_ROWS: seq<(string, nat)> := [
    ("extensions", 0x1f37486fbad1f29f6918f223bf859e2c715dfcc972b49944495fba35515a14b7),
    ("platform", 0x49a577344361791ba0c0c3d1d0969be70247744688b88b577d8d637e1dcb3aed),
    ("identity", 0x1595dd0be8e385b0bb7f53411200fff558ab228abcd0759ac9c72ae484bcaf55),
    ("tenancy", 0xb72bcb3bd36e9aca1d2beaee01bd7ad324f098e542358a0984ea7a99e912818a),
    ("infra", 0x07a647e9d38662cad0d6c00274823e8f0390b6071a3dc7c8afed1bd614d8cb49),
    ("catalog", 0xdafe23d27f2a62553bb65c9069a7e54b7d6f5559ff7cca2ea46e89c8c156f04a),
    ("rls", 0x0670ccb65630ef017cc2aaccb2319e31ae4f6bded8fbe45b3fedeb54cf866e75),
    ("entitlements", 0xe790ef5b6b19837c4df6b7364e3c88737b6a3a9562d44eda0a0ff09277154717),
    ("multiuser_rbac", 0xbefbd18e31d2e21acd6f21746a43e447a439650d064e3098f09ab196ac7a6fad),
    ("admin", 0x1c46a75481d898116635e7338f913291378dc7660dd081af9e25503f3b320308),
    ("db_roles", 0xa21ae45158e92717e60628a6b7a7fad9cdd96c6a3a0e92197954fc679899fb9c),
    ("auth_lineage", 0xcc470416864a6c4e19ecf64e1216f127d676faacf42232c3c0f588bb33ae3b73),
    ("tenant_memberships", 0xe42669136d15c9e92114a62b7546ba3d68b6504456c7605ddc541bf8e1b5a82c),
    ("security_boundary", 0xa14a7c4744e3f41c8133b49540b96107536feb9724cf0427d02550c0cab7a14d),
    ("branch_scopes", 0x5c6d02c2829c0eae8b200c4a56dba9df5d4659a62f9bf77486f5b0abfdaa88f5),
    ("identity_role", 0xccc2725df0ff456c0e128992690f13b03d30335a3d8dc4125f39e1f9b2d5c74b),
    ("tenant_membership_invariant", 0x154c71d92a98daf386926bb399bba3aec8c3399e40eec02f680f80133f4d2732),
    ("delivery_tracking", 0xc6f3cc98db5ccb735fb5d224a45fbcbac8a6dd1309aabdab405b99d54c357d52),
    ("onboarding_operations", 0xfe65bf8080b3b809e2f69b312906b9b50828340130c649ca79f77fcee8c8396d),
    ("owner_authority_integrity", 0xd93e7429fa35ef90c1ef140b69c5bc50bd3c7228cadf26a9acc322a9e546c435),
    ("credential_delivery_outbox", 0xa275d67fa6cd988b69d6282105908419e5da264a2e564023aaecf6c95206d0bc),
    ("saas_enforcement", 0xd929e205a687638246e65c4d62fe420f049e9f0acadacb9f7751ee1f8613f88d),
    ("plan_lifecycle_overrides", 0x16804a7c476d672a9bb89f0aa3d7817eda59528b65b331cd4161a6884c334c57),
    ("country_timezone_locale", 0x2fda39bf599532f98f3ddcb9f4e42c2995d9ee6364171d23c2da6e7f59c59716),
    ("role_crud_grants", 0x839b13f6a4c83a7c11698b1fc21d1600e1732d4cea25f5053d6d30dc4c93cb7b),
    ("credential_payload_protection", 0x8ce47be8329aa119873f35b64e2fe6791ed88a1c515ee0aba46689def83f6452),
    ("versioned_trial_override_shape_ownership", 0xb5b9e0e0d1ca3027e66b76bce7723c3a4f96c2b825973caf006d4639e8714152),
    ("plan_version_immutability_hardening", 0x37909b885fc22514cf55aea7a5372c24d30f5b207c93810bac5e013e7da74fa9),
    ("credential_delivery_hardening", 0x6b64bd760ebc37aee37ea360cd5804f935e37ec352572716d05d1d8a21a3bf1c),
    ("support_sessions", 0xcbaa85bf9777fc61942a1ec327ada3b3e830441adfbb195672cdead4b7338b09),
    ("provisioner_role", 0x70941c698959b00b06c2b0315243fbb9f78ce56a7d9ee2e75733f27362771346),
    ("provisioner_entitlement_read", 0x6de2c7561f75f912f3db356627bcf2306d27ff093ea743f48fa1a1a884cf85cb),
    ("provisioner_narrow_functions", 0x694d57f7efd6584edb78305ff6c336ade85ae39e2e3be630a6ec73829dad4888),
    ("provisioner_atomic_authority", 0xde125a460e103b73a081696a808dacb4979727005a9c7b6c65a088bfc3ee3f51),
    ("platform_console_grants", 0xf9048997296e39b92e44bd2ee8bb13c3d843af6529dfbcc779dabdfcd21291c8),
    ("ownership_implication_and_indexes", 0x847558583c005357972ce1c44c9bef66e39a08fb7cc74d4976d10572928dfa68),
    ("catalog_translations_normalized", 0x7f1f4aa5f087e88cd2e292e26de0c9e9ee58fc20dafcc38fe6efda0376710343),
    ("catalog_identifiers", 0x540fa71d28f3c3140935a7325b68667d1679abf461a1ecf84512b18eb3271aed),
    ("provisioning_assertions", 0x1baa0f8aa0b318c9ee89e1f1863da1459607826bfe44e129a57bbaa0a5b1ca1b),
    ("catalog_identifiers_owner_integrity", 0x935fb8b767054f2c919ff48968af28df6abb823e564f8cee8b2284b42520d9cd),
    ("accounting_chart", 0x535c8182a922a8363df2c791759c3e1eff2790757e402e6e28a41a5d113651db),
    ("accounting_permissions", 0x3aea7eedfd6ccb9d8fd93ed827d84abaa9923ccd3b01497960237098c19b1f77),
    ("accounting_journal", 0x78c852cd1f5888013a02244327a1eb606e3f0fd9582fbbed2018b9382cb92e33),
    ("accounting_invariants", 0x9744da043d3c8b3fe68af30b135e5f5f36207ec5b457d115a3f5a465d268e70f),
    ("accounting_assertion_keys", 0xcf49b196598e5dc829b56e656bc7883a2fed3a54f6631cf0bdf112c4521a0902),
    ("accounting_post_entry", 0x84fa101e1c25e880b7850a96abd05a5efabd068cec56397c3b465ca11847cb2e),
    ("accounting_sources", 0x6e4500dcc639149ac25d3e0736bbce77ff372aa06736c1211fe40725e7d196e6),
    ("accounting_opening_balances", 0x0938d513c0bb844c5f36cbdb170612a08f9f52f828660ca88e2db00aeea1cabc),
    ("accounting_fx_rates", 0x5438538a9f335c918b231db3faa94dd4eac7b71a1a688d1c62b5cda9f8ee4cc1),
    ("accounting_periods", 0x454a52183f8666f88bbf17b87b4b44e6413114af069149d2eb2489854307d851),
    ("accounting_report_indexes", 0xef20a42788c503317c1e4b9bb69ada47e547faf42330bb1bc0d8e0a2f4c18356),
    ("accounting_reconciler_read", 0x2086c87564f5f66243ab64753e7c4f5338f896a1e29984ddf8977be8ba7587cc),
    ("accounting_journal_lines_rls_performance", 0x0acf165003c678f8d3017797e77033fadf2e9e791be54f98048031108c72ad84)
  ]

  /** 0053 to 0069: the slices P3-S1 to P3-S8. */
  const PHASE3_SLICE_ROWS: seq<(string, nat)> := [
    ("inventory_units_and_product_configuration", 0x63940fbcf2c5a3cd99a20280cd83fe53198a0e2d0e2dc0db7ed80d31c47bd3e6),
    ("inventory_assertion_authority", 0x7205dea79f090ecf8ded122557d92b2b9669463ce3e5aefca466a968ef9aa450),
    ("inventory_configure_product", 0x6652cd5949ad2d9bdda559e23174b850f3cf6bcc2a54d307c5fb9a0a1f5fa2b7),
    ("inventory_branch_warehouses", 0x2de288c370e90df5c304ccf354638d178452798662d83054c6a8df8c6f7195a5),
    ("inventory_permissions", 0xf6c7b56f920215cc8ba3e84d24e4f353329edab8dccb8d4e43a66712f7c1941d),
    ("accounting_entry_date_guard", 0x455973c26bfdf0a185112a4e20a24676d54b5c4c7d4d1232f3e2dce3046b431a),
    ("inventory_stock_ledger", 0x4d613225cf880c653918d7106f7fdcecbbda6adfa64d6c7dc2b991e49eb6494d),
    ("inventory_stock_primitive", 0xbe240e163a7894dc2de4a384a9a86e47addf0ea10c60fadc0e8c6341c278d66b),
    ("inventory_movement_sources", 0x7b785537a866606990ab2cfab2a783eb05fe7fb362a67f9ea127119d569f57ff),
    ("inventory_movement_commands", 0xdc47df235cc563606705de2a3a991992e573486bfa8d6a8493eb744129bb4b91),
    ("purchases_suppliers_sources", 0xbf505fbad5ac4b32d1de2dba729fcd61f7a0651b3b99c8f38e5c2c4980c0a5fe),
    ("purchase_commands", 0xb82e01810568390d21156ae555a7fbd35a990e33d8b280361bc85eaa6c7074ad),
    ("supplier_returns_reversals_sources", 0xfbf674d2663854da31024932df428ec9d16ccdbda15d3c83a10dbcf554b95e68),
    ("supplier_return_reversal_commands", 0xa9d5e6175a99677db33ebbadfac6ac41310fbc97cbc8390ac669534679eeef9e),
    ("payment_methods_supplier_settlement_sources", 0x81363f1adf8a296b94690baee4766bcacfa72520477b26f8044cccda398fe660),
    ("supplier_settlement_commands", 0xdafad8c698b8668eef24b38315117b3813ceeeaad7cc84b9089ab66b3be89a04),
    ("inventory_reconciliation_read_and_account_domain", 0x912299e90a937b684b1829df4be90d5815ee61bcee79d9a01c5e47c4d6fe3084)
  ]

  /** 0070 to 0073: the corrective hardening. */
  const PHASE3_CORRECTIVE_ROWS: seq<(string, nat)> := [
    ("definer_ownership_hardening", 0xadd1fdea23051887900f33fb1a5ab30257656350807b58e479363231b2d432be),
    ("reversal_inventory_account_domain", 0xda36cae26c8c51847217e0e3654b5934f2f12ccbef824fc15222454d6a2ad14f),
    ("purchase_sub_unit_residue", 0x19ade4bf5b2e6d3960b73bf5834f78bcf862da59ba229f936208bb3b5a3ab1d0),
    ("default_warehouse_locale_name", 0xc47d4acbc94314ff68d043fcc0356274a2996492de9b6c10e4f52e5f05228ed7)
  ]

  function DigitChar(n: nat): (c: char)
    requires n < 10
    ensures IsDigit(c) && Digit(c) == n
  {
    ('0' as int + n) as char
  }

  lemma DigitsAddUp(n: nat)
    requires n < 10000
    ensures 1000 * (n / 1000) + 100 * (n / 100 % 10) + 10 * (n / 10 % 10) + n % 10 == n
    ensures n / 1000 < 10
  {
    assert n / 100 == 10 * (n / 1000) + n / 100 % 10;
    assert n / 10 == 10 * (n / 100) + n / 10 % 10;
  }

  /** A name with this four-digit head. */
  lemma HeadOfName(a: char, b: char, c: char, d: char, slug: string)
    requires IsDigit(a) && IsDigit(b) && IsDigit(c) && IsDigit(d)
    ensures var name := [a, b, c, d, '_'] + slug + ".sql";
            IsSql(name) && FourDigit(name) && Head(name) == 1000 * Digit(a) + 100 * Digit(b) + 10 * Digit(c) + Digit(d)
  {
    var name := [a, b, c, d, '_'] + slug + ".sql";
    assert name[|name| - 4..] == ".sql";
  }

  /** `0053_` for 53: the four-digit head every migration name carries. */
  function FileName(n: nat, slug: string): (name: string)
    requires n < 10000
    ensures IsSql(name) && FourDigit(name) && Head(name) == n
  {
    DigitsAddUp(n);
    var a, b, c, d := DigitChar(n / 1000), DigitChar(n / 100 % 10), DigitChar(n / 10 % 10), DigitChar(n % 10);
    HeadOfName(a, b, c, d, slug);
    [a, b, c, d, '_'] + slug + ".sql"
  }

  /** `n` in lower-case hexadecimal, `width` digits wide. */
  function Hex(n: nat, width: nat): (text: string)
    ensures |text| == width
  {
    if width == 0 then ""
    else
      var d := n % 16;
      Hex(n / 16, width - 1) + [if d < 10 then DigitChar(d) else ('a' as int + d - 10) as char]
  }

  function EntriesFrom(first: nat, rows: seq<(string, nat)>): (entries: seq<Entry>)
    requires first + |rows| <= 10000
    ensures |entries| == |rows|
    ensures forall i | 0 <= i < |rows| :: entries[i] == Entry(FileName(first + i, rows[i].0), Hex(rows[i].1, 64))
  {
    seq(|rows|, i requires 0 <= i < |rows| => Entry(FileName(first + i, rows[i].0), Hex(rows[i].1, 64)))
  }

  const PHASE2 := Literal(EntriesFrom(0, PHASE2_ROWS), 0, true)
  const PHASE3_SLICE := Literal(EntriesFrom(53, PHASE3_SLICE_ROWS), 53, false)
  const PHASE3 := Literal(EntriesFrom(53, PHASE3_SLICE_ROWS + PHASE3_CORRECTIVE_ROWS), 53, false)

  lemma EntriesNumbered(first: nat, rows: seq<(string, nat)>, offset: nat, open: bool)
    requires first + |rows| <= 10000 && rows != []
    ensures Numbered(Literal(EntriesFrom(first, rows), offset, open))
  {
  }

  /** The literals are what the checks take them for, and follow one another. */
  lemma LiteralsAreNumbered()
    ensures |PHASE2.entries| == 53 && |PHASE3_SLICE.entries| == 17 && |PHASE3.entries| == 21
    ensures Numbered(PHASE2) && Numbered(PHASE3_SLICE) && Numbered(PHASE3)
    ensures PHASE3_SLICE == FirstPart(PHASE3, 17)
    ensures Head(Start(PHASE2)) == 0 && Head(End(PHASE2)) == 52
    ensures Head(Start(PHASE3)) == 53 && Head(End(PHASE3_SLICE)) == 69 && Head(End(PHASE3)) == 73
    ensures PHASE3.offset == |PHASE2.entries|
  {
    EntriesNumbered(0, PHASE2_ROWS, 0, true);
    EntriesNumbered(53, PHASE3_SLICE_ROWS, 53, false);
    EntriesNumbered(53, PHASE3_SLICE_ROWS + PHASE3_CORRECTIVE_ROWS, 53, false);
    assert FirstPart(PHASE3, 17).entries == PHASE3_SLICE.entries;
  }
}
